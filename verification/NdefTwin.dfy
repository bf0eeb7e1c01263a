/** The second implementation of the same bytes, tools/nfc-setup.py, on strings of code points. */
module NdefTwin {
  import opened Bytes
  import opened Ndef
  import Utf8

  function Attribute(kind: int, value: seq<byte>): seq<byte>
    requires 0 <= kind < TWO_16 && |value| < TWO_16
  {
    [kind / 256, kind % 256, |value| / 256, |value| % 256] + value
  }

  function Credential(ssid: seq<byte>): (s: seq<byte>)
    requires |ssid| <= 32
    ensures |s| == 35 + |ssid|
  {
    Attribute(0x1026, [1]) + Attribute(0x1045, ssid) + Attribute(0x1003, [0, 1]) + Attribute(0x100f, [0, 1])
    + Attribute(0x1027, []) + Attribute(0x1020, seq(6, _ => 255))
  }

  function Payload(ssid: seq<byte>): (s: seq<byte>)
    requires |ssid| <= 32
    ensures |s| == 44 + |ssid|
  {
    Attribute(0x104a, [0x10]) + Attribute(0x100e, Credential(ssid))
  }

  function UriPayload(url: seq<byte>, tls: bool): (s: seq<byte>)
    requires (if tls then 8 else 7) <= |url|
    ensures |s| == 1 + |url| - (if tls then 8 else 7)
  {
    if tls then [4] + url[8..] else [3] + url[7..]
  }

  /** `build_ndef`; `None` stands for the ValueError it raises. */
  function BuildNdef(ssid: seq<int>, url: seq<int>): Option<seq<byte>>
  {
    if !Utf8.AllScalar(ssid) then None
    else
      var ssidBytes := Utf8.EncodeAll(ssid);
      if !(1 <= |ssidBytes| <= 32) || 0 in ssid then None
      else if !(HTTP <= url || HTTPS <= url) || exists k :: 0 <= k < |url| && (url[k] <= 32 || url[k] == 127) then None
      else if !Utf8.AllScalar(url) then None
      else
        var urlBytes := Utf8.EncodeAll(url);
        if |urlBytes| > 192 then None
        else
          var payload := Payload(ssidBytes);
          var wifi := [0x92, |MIME|, |payload|] + MIME + payload;
          var tls := HTTPS <= url;
          var prefix := if tls then 8 else 7;
          if |urlBytes| <= prefix || urlBytes[prefix] in {SLASH, QUESTION} then None
          else
            var uri := UriPayload(urlBytes, tls);
            Some(wifi + ([0x51, 1, |uri|] + [LETTER_U] + uri))
  }

  /** `type2_tlv`; `None` stands for the error of packing a length of more than two bytes. */
  function Type2Tlv(message: seq<byte>): Option<seq<byte>>
  {
    if |message| <= 254 then Some([3, |message|] + message + [0xfe])
    else if |message| > 65535 then None
    else Some([3, 0xff] + [|message| / 256, |message| % 256] + message + [0xfe])
  }

  // ---------------------------------------------------------------- text and its encoding

  lemma WideBytes(c: int)
    requires Utf8.IsScalar(c) && c >= 0x80
    ensures Utf8.Encode(c) != [] && forall k :: 0 <= k < |Utf8.Encode(c)| ==> Utf8.Encode(c)[k] >= 0x80
  {
    Utf8.EncodedIsFirst(c, []);
  }

  lemma PrefixByHead(p: seq<int>, s: seq<int>)
    requires p != [] && s != []
    ensures p <= s <==> p[0] == s[0] && p[1..] <= s[1..]
  {
    if p <= s {
      assert s[1..][..|p| - 1] == s[..|p|][1..];
    }
  }

  /** An ASCII prefix of a text is a prefix of its encoding, and only then. */
  lemma {:induction false} PrefixEncoded(cs: seq<int>, p: seq<byte>)
    requires Utf8.AllScalar(cs) && forall k :: 0 <= k < |p| ==> p[k] < 0x80
    ensures p <= cs <==> p <= Utf8.EncodeAll(cs)
    decreases |p|
  {
    hide Utf8.IsScalar;
    var s := Utf8.EncodeAll(cs);
    if p != [] && cs != [] {
      var head, tail := Utf8.Encode(cs[0]), Utf8.EncodeAll(cs[1..]);
      if cs[0] < 0x80 {
        PrefixEncoded(cs[1..], p[1..]);
        assert s == [cs[0]] + tail;
        PrefixByHead(p, s);
        PrefixByHead(p, cs);
      } else {
        WideBytes(cs[0]);
        assert s[0] == head[0];
      }
    }
  }

  predicate PrintableChar(c: int)
  {
    c > 32 && c != 127
  }

  predicate AllChars(cs: seq<int>)
  {
    forall k :: 0 <= k < |cs| ==> PrintableChar(cs[k])
  }

  predicate AllBytes(s: seq<byte>)
  {
    forall k :: 0 <= k < |s| ==> Printable(s[k])
  }

  lemma FirstPrintable(c: int)
    requires Utf8.IsScalar(c)
    ensures PrintableChar(c) <==> AllBytes(Utf8.Encode(c))
  {
    if c >= 0x80 {
      WideBytes(c);
    } else {
      assert Utf8.Encode(c) == [c];
      assert Printable(Utf8.Encode(c)[0]) <==> PrintableChar(c);
    }
  }

  lemma BytesOfConcat(a: seq<byte>, b: seq<byte>)
    ensures AllBytes(a + b) <==> AllBytes(a) && AllBytes(b)
  {
    if AllBytes(a + b) {
      assert forall k :: 0 <= k < |a| ==> a[k] == (a + b)[k];
      assert forall k :: 0 <= k < |b| ==> b[k] == (a + b)[|a| + k];
    }
  }

  lemma CharsOfConcat(cs: seq<int>)
    requires cs != []
    ensures AllChars(cs) <==> PrintableChar(cs[0]) && AllChars(cs[1..])
  {
    if PrintableChar(cs[0]) && AllChars(cs[1..]) {
      assert forall k :: 1 <= k < |cs| ==> cs[k] == cs[1..][k - 1];
    }
  }

  /** No character is blank or a control one exactly when no byte of the encoding is. */
  lemma {:induction false} PrintableEncoded(cs: seq<int>)
    requires Utf8.AllScalar(cs)
    ensures AllChars(cs) <==> AllBytes(Utf8.EncodeAll(cs))
  {
    if cs != [] {
      hide AllBytes, AllChars;
      PrintableEncoded(cs[1..]);
      FirstPrintable(cs[0]);
      BytesOfConcat(Utf8.Encode(cs[0]), Utf8.EncodeAll(cs[1..]));
      CharsOfConcat(cs);
    }
  }

  // ---------------------------------------------------------------- agreement

  lemma PayloadAgrees(ssid: seq<byte>)
    requires IsNetwork(ssid, [])
    ensures Payload(ssid) == WifiPayload(ssid, [])
  {
    forall id: int, value: seq<byte> | 0 <= id < TWO_16 && |value| < TWO_16
      ensures Attribute(id, value) == Attr(id, value)
    {
    }
    hide Attribute, Attr;
    assert seq(6, _ => 255) == [255, 255, 255, 255, 255, 255];
  }

  predicate Accepted(ssid: seq<int>, url: seq<int>)
  {
    && Utf8.AllScalar(ssid) && Utf8.AllScalar(url) && 0 !in ssid
    && IsNetwork(Utf8.EncodeAll(ssid), []) && IsUrl(Utf8.EncodeAll(url))
  }

  /**
   * On every pair of strings the tool accepts exactly what the firmware accepts for their encodings
   * and an empty password, and builds the same bytes. (A C string cannot hold the NUL the tool refuses.)
   */
  lemma BuildNdefAgrees(ssid: seq<int>, url: seq<int>)
    ensures BuildNdef(ssid, url)
         == if Accepted(ssid, url) then Some(WifiMessage(Utf8.EncodeAll(ssid), [], Utf8.EncodeAll(url))) else None
  {
    hide Utf8.AllScalar, Utf8.EncodeAll, Payload, WifiPayload;
    if Utf8.AllScalar(ssid) && Utf8.AllScalar(url) {
      PrefixEncoded(url, HTTP);
      PrefixEncoded(url, HTTPS);
      PrintableEncoded(url);
      if IsNetwork(Utf8.EncodeAll(ssid), []) {
        PayloadAgrees(Utf8.EncodeAll(ssid));
      }
    }
  }

  /** The two TLV writers agree except that the firmware refuses an empty message. */
  lemma Type2Agrees(message: seq<byte>)
    ensures Type2Tlv(message) == if |message| < TWO_16 then Some(Type2(message)) else None
    ensures Type2Tlv([]) == Some([3, 0, 0xfe])
  {
    assert [3, 0] + [] + [0xfe] == [3, 0, 0xfe];
    if |message| <= 254 {
      assert [3] + [|message|] == [3, |message|];
    } else if |message| < TWO_16 {
      assert [3] + ([255] + Be16(|message|)) == [3, 0xff] + [|message| / 256, |message| % 256];
    }
  }
}
