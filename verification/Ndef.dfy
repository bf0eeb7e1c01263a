/** The bounded NDEF writer of components/board_services/board_ndef.c and the bytes it is meant to write. */
module Ndef {
  import opened Bytes

  // "http://", "https://" and "application/vnd.wfa.wsc"
  const HTTP: seq<byte> := [0x68, 0x74, 0x74, 0x70, 0x3a, 0x2f, 0x2f]
  const HTTPS: seq<byte> := [0x68, 0x74, 0x74, 0x70, 0x73, 0x3a, 0x2f, 0x2f]
  const MIME: seq<byte> := [0x61, 0x70, 0x70, 0x6c, 0x69, 0x63, 0x61, 0x74, 0x69, 0x6f, 0x6e, 0x2f,
                            0x76, 0x6e, 0x64, 0x2e, 0x77, 0x66, 0x61, 0x2e, 0x77, 0x73, 0x63]
  const MIME_BYTES := 23
  const SLASH: byte := 0x2f
  const QUESTION: byte := 0x3f
  const LETTER_U: byte := 0x55
  const URL_MAX := 192
  const CREDENTIAL_BYTES := 144

  // ---------------------------------------------------------------- the messages

  predicate Secure(url: seq<byte>)
  {
    HTTPS <= url
  }

  function SchemeLength(url: seq<byte>): nat
  {
    if Secure(url) then 8 else 7
  }

  predicate Printable(b: byte)
  {
    b > 32 && b != 127
  }

  /** A URL that fits one short record: a scheme, a host that is not empty, no blank or control byte. */
  predicate IsUrl(url: seq<byte>)
  {
    && (HTTP <= url || HTTPS <= url)
    && SchemeLength(url) < |url| <= URL_MAX
    && url[SchemeLength(url)] != SLASH && url[SchemeLength(url)] != QUESTION
    && forall k :: 0 <= k < |url| ==> Printable(url[k])
  }

  /** An SSID and either no key or a WPA2 passphrase. */
  predicate IsNetwork(ssid: seq<byte>, password: seq<byte>)
  {
    1 <= |ssid| <= 32 && (password == [] || 8 <= |password| <= 63)
  }

  function Be16(n: int): (s: seq<byte>)
    requires 0 <= n < TWO_16
    ensures |s| == 2
  {
    [n / 256, n % 256]
  }

  /** One Wi-Fi Simple Configuration attribute. */
  function Attr(id: int, value: seq<byte>): (s: seq<byte>)
    requires 0 <= id < TWO_16 && |value| < TWO_16
    ensures |s| == 4 + |value|
  {
    Be16(id) + Be16(|value|) + value
  }

  function ShortRecord(header: byte, kind: seq<byte>, payload: seq<byte>): (s: seq<byte>)
    requires |kind| < 256 && |payload| < 256
    ensures |s| == 3 + |kind| + |payload|
  {
    [header, |kind|, |payload|] + kind + payload
  }

  function UriPayload(url: seq<byte>): (s: seq<byte>)
    requires IsUrl(url)
    ensures |s| == 1 + |url| - SchemeLength(url)
  {
    [if Secure(url) then 4 else 3] + url[SchemeLength(url)..]
  }

  function UriRecord(url: seq<byte>, first: bool): seq<byte>
    requires IsUrl(url)
  {
    ShortRecord(if first then 0xd1 else 0x51, [LETTER_U], UriPayload(url))
  }

  function Credential(ssid: seq<byte>, password: seq<byte>): (s: seq<byte>)
    requires IsNetwork(ssid, password)
    ensures |s| == 35 + |ssid| + |password|
  {
    Attr(0x1026, [1]) + Attr(0x1045, ssid) + Attr(0x1003, [0, if password == [] then 0x01 else 0x20])
    + Attr(0x100f, [0, if password == [] then 0x01 else 0x08]) + Attr(0x1027, password)
    + Attr(0x1020, [255, 255, 255, 255, 255, 255])
  }

  function WifiPayload(ssid: seq<byte>, password: seq<byte>): (s: seq<byte>)
    requires IsNetwork(ssid, password)
    ensures |s| == 44 + |ssid| + |password|
  {
    Attr(0x104a, [0x10]) + Attr(0x100e, Credential(ssid, password))
  }

  function WifiMessage(ssid: seq<byte>, password: seq<byte>, url: seq<byte>): seq<byte>
    requires IsNetwork(ssid, password) && IsUrl(url)
  {
    ShortRecord(0x92, MIME, WifiPayload(ssid, password)) + UriRecord(url, false)
  }

  /** NFC Forum Type 2 Tag Operation, section 2.3: an NDEF message TLV and the terminator TLV. */
  function Type2(message: seq<byte>): seq<byte>
    requires |message| < TWO_16
  {
    [3] + (if |message| <= 254 then [|message|] else [255] + Be16(|message|)) + message + [0xfe]
  }

  // ---------------------------------------------------------------- the writer

  lemma UriBytes(url: seq<byte>, first: bool)
    requires IsUrl(url)
    ensures UriRecord(url, first)
         == [if first then 0xd1 else 0x51, 1, |url| - SchemeLength(url) + 1, LETTER_U, if Secure(url) then 4 else 3]
            + url[SchemeLength(url)..]
  {
    hide Secure;
  }

  lemma UrlBounds(url: seq<byte>)
    requires IsUrl(url)
    ensures SchemeLength(url) < |url| <= URL_MAX
  {
  }

  class Writer {
    const out: array<byte>
    var length: nat
    var valid: bool
    ghost var asked: seq<byte>
    ghost const initial: seq<byte>

    /**
     * Everything asked for is in the buffer, or it does not fit. Bytes past the length are untouched.
     */
    ghost predicate Valid()
      reads this, out
    {
      && length <= out.Length == |initial|
      && (valid ==> length == |asked| && forall k :: 0 <= k < length ==> out[k] == asked[k])
      && (!valid ==> |asked| > out.Length)
      && forall k :: length <= k < out.Length ==> out[k] == initial[k]
    }

    constructor (out: array<byte>)
      ensures this.out == out && Valid() && asked == [] && initial == out[..]
    {
      this.out := out;
      length := 0;
      valid := true;
      asked := [];
      initial := out[..];
    }

    method Append(data: seq<byte>)
      requires Valid()
      modifies this, out
      ensures Valid() && asked == old(asked) + data
    {
      asked := asked + data;
      if !valid || |data| > out.Length - length {
        valid := false;
        return;
      }
      for i := 0 to |data|
        invariant forall k :: 0 <= k < length ==> out[k] == old(out[k])
        invariant forall k :: 0 <= k < i ==> out[length + k] == data[k]
        invariant forall k :: length + i <= k < out.Length ==> out[k] == old(out[k])
        modifies out
      {
        out[length + i] := data[i];
      }
      length := length + |data|;
      assert forall k :: old(length) <= k < length ==> out[k] == data[k - old(length)] by {
        assert forall k :: old(length) <= k < length ==> out[k] == out[old(length) + (k - old(length))];
      }
    }

    method PutByte(b: byte)
      requires Valid()
      modifies this, out
      ensures Valid() && asked == old(asked) + [b]
    {
      Append([b]);
    }

    method PutBe16(n: int)
      requires Valid() && 0 <= n < TWO_16
      modifies this, out
      ensures Valid() && asked == old(asked) + Be16(n)
    {
      PutByte(n / 256);
      PutByte(n % 256);
    }

    method PutAttr(id: int, value: seq<byte>)
      requires Valid() && 0 <= id < TWO_16 && |value| < TWO_16
      modifies this, out
      ensures Valid() && asked == old(asked) + Attr(id, value)
    {
      PutBe16(id);
      PutBe16(|value|);
      Append(value);
    }

    /** `uri_record`. */
    method PutUriRecord(url: seq<byte>, first: bool)
      requires Valid() && IsUrl(url)
      modifies this, out
      ensures Valid() && asked == old(asked) + UriRecord(url, first)
    {
      hide IsUrl, Valid, UriRecord;
      var tls := HTTPS <= url;
      var prefix := SchemeLength(url);
      UrlBounds(url);
      PutByte(if first then 0xd1 else 0x51);
      PutByte(1);
      PutByte((|url| - prefix + 1) % 256);
      PutByte(LETTER_U);
      PutByte(if tls then 4 else 3);
      ghost var before := old(asked);
      ghost var head: seq<byte> :=
        [if first then 0xd1 else 0x51, 1, |url| - prefix + 1, LETTER_U, if tls then 4 else 3];
      assert asked == before + head;
      Append(url[prefix..]);
      assert before + head + url[prefix..] == before + (head + url[prefix..]);
      UriBytes(url, first);
    }
  }

  // ---------------------------------------------------------------- the interface

  /** `valid_url`; the bound on the scan is one past the longest URL. */
  method ValidUrl(url: seq<byte>) returns (ok: bool, length: nat)
    ensures ok <==> IsUrl(url)
    ensures ok ==> length == |url|
  {
    length := if |url| <= 193 then |url| else 193;
    if length == 0 || length > 192 || !(HTTP <= url || HTTPS <= url) {
      return false, length;
    }
    var prefix := SchemeLength(url);
    if length <= prefix || url[prefix] == SLASH || url[prefix] == QUESTION {
      return false, length;
    }
    for i := 0 to length
      invariant forall k :: 0 <= k < i ==> Printable(url[k])
    {
      if url[i] <= 32 || url[i] == 127 {
        assert !Printable(url[i]);
        return false, length;
      }
    }
    return true, length;
  }

  /** The message is at the front of the buffer and nothing else of it has changed. */
  twostate predicate Written(out: array<byte>, message: seq<byte>)
    reads out
  {
    && |message| <= out.Length
    && (forall k :: 0 <= k < |message| ==> out[k] == message[k])
    && (forall k :: |message| <= k < out.Length ==> out[k] == old(out[k]))
  }

  method BoardNdefUri(url: seq<byte>, out: array<byte>) returns (ok: bool, written: nat)
    modifies out
    ensures ok <==> IsUrl(url) && |UriRecord(url, true)| <= out.Length
    ensures if ok then written == |UriRecord(url, true)| && Written(out, UriRecord(url, true)) else written == 0
  {
    hide IsUrl, UriRecord;
    written := 0;
    var length;
    ok, length := ValidUrl(url);
    if !ok {
      return;
    }
    var w := new Writer(out);
    w.PutUriRecord(url, true);
    assert [] + UriRecord(url, true) == UriRecord(url, true);
    ok := w.valid;
    if ok {
      written := w.length;
    }
  }

  method PutCredential(c: Writer, ssid: seq<byte>, password: seq<byte>)
    requires c.Valid() && c.asked == [] && IsNetwork(ssid, password)
    modifies c, c.out
    ensures c.Valid() && c.asked == Credential(ssid, password)
  {
    hide Attr;
    c.PutAttr(0x1026, [1]);
    c.PutAttr(0x1045, ssid);
    c.PutAttr(0x1003, [0, if |password| > 0 then 0x20 else 0x01]);
    c.PutAttr(0x100f, [0, if |password| > 0 then 0x08 else 0x01]);
    c.PutAttr(0x1027, password);
    c.PutAttr(0x1020, [255, 255, 255, 255, 255, 255]);
    assert [] + Attr(0x1026, [1]) == Attr(0x1026, [1]);
  }

  method PutRecords(w: Writer, credential: seq<byte>, url: seq<byte>)
    requires w.Valid() && |credential| <= 200 && IsUrl(url)
    modifies w, w.out
    ensures w.Valid()
    ensures w.asked == old(w.asked) + (ShortRecord(0x92, MIME, Attr(0x104a, [0x10]) + Attr(0x100e, credential))
                                       + UriRecord(url, false))
  {
    hide IsUrl, UriRecord, Attr, Writer.Valid;
    w.PutByte(0x92);
    w.PutByte(MIME_BYTES);
    w.PutByte((5 + 4 + |credential|) % 256);
    w.Append(MIME);
    w.PutAttr(0x104a, [0x10]);
    w.PutAttr(0x100e, credential);
    assert w.asked == old(w.asked) + ShortRecord(0x92, MIME, Attr(0x104a, [0x10]) + Attr(0x100e, credential));
    w.PutUriRecord(url, false);
  }

  /** `board_ndef_wifi`. */
  method BoardNdefWifi(ssid: seq<byte>, password: seq<byte>, url: seq<byte>, out: array<byte>)
    returns (ok: bool, written: nat)
    modifies out
    ensures ok ==> IsNetwork(ssid, password) && IsUrl(url)
    ensures ok <==> 1 <= |ssid| <= 32 && (password == [] || 8 <= |password| <= 63) && IsUrl(url)
                    && |WifiMessage(ssid, password, url)| <= out.Length
    ensures if ok then written == |WifiMessage(ssid, password, url)| && Written(out, WifiMessage(ssid, password, url))
            else written == 0
  {
    hide IsUrl, UriRecord, Credential, Attr, ShortRecord;
    written := 0;
    var urlLength;
    ok, urlLength := ValidUrl(url);
    if !ok {
      return;
    }
    var ssidLength := if |ssid| <= 33 then |ssid| else 33;
    var keyLength := if |password| <= 64 then |password| else 64;
    if ssidLength == 0 || ssidLength > 32 || keyLength > 63 || (keyLength > 0 && keyLength < 8) {
      return false, 0;
    }
    var credential := new byte[CREDENTIAL_BYTES](_ => 0);
    var c := new Writer(credential);
    PutCredential(c, ssid, password);
    ok := c.valid;
    if !ok {
      return;
    }
    assert credential[..c.length] == Credential(ssid, password);
    var w := new Writer(out);
    PutRecords(w, credential[..c.length], url);
    assert [] + WifiMessage(ssid, password, url) == WifiMessage(ssid, password, url);
    ok := w.valid;
    if ok {
      written := w.length;
    }
  }

  /** `board_ndef_type2`. */
  method BoardNdefType2(message: seq<byte>, out: array<byte>) returns (ok: bool, written: nat)
    modifies out
    ensures ok <==> 1 <= |message| < TWO_16 && |Type2(message)| <= out.Length
    ensures if ok then written == |Type2(message)| && Written(out, Type2(message)) else written == 0
  {
    written := 0;
    if |message| == 0 || |message| > 65535 {
      return false, 0;
    }
    var w := new Writer(out);
    w.PutByte(3);
    if |message| <= 254 {
      w.PutByte(|message|);
    } else {
      w.PutByte(255);
      w.PutBe16(|message|);
    }
    w.Append(message);
    w.PutByte(0xfe);
    assert w.asked == Type2(message);
    ok := w.valid;
    if ok {
      written := w.length;
    }
  }
}
