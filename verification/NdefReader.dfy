/**
 * What a phone reads: NFC Forum NDEF 1.0, section 3.2, and Wi-Fi attributes; and that it reads back what
 * was written.
 */
module NdefReader {
  import opened Bytes
  import opened Ndef

  // ---------------------------------------------------------------- reading

  datatype Record = Record(begin: bool, end: bool, tnf: nat, kind: seq<byte>, payload: seq<byte>)

  /** One record in short form, without chunks or an identifier, and the bytes it takes. */
  function FirstRecord(s: seq<byte>): (r: Option<(Record, nat)>)
    ensures r.Some? ==> 3 <= r.value.1 <= |s|
  {
    if |s| < 3 || s[0] / 32 % 2 == 1 || s[0] / 16 % 2 == 0 || s[0] / 8 % 2 == 1 then None
    else
      var kindEnd := 3 + s[1] as int;
      var end := kindEnd + s[2] as int;
      if |s| < end then None
      else Some((Record(s[0] / 128 == 1, s[0] / 64 % 2 == 1, s[0] % 8, s[3..kindEnd], s[kindEnd..end]), end))
  }

  /** The records of a message: exactly the first begins it and exactly the last ends it. */
  function Records(s: seq<byte>, first: bool): Option<seq<Record>>
    decreases |s|
  {
    match FirstRecord(s)
    case None => None
    case Some((r, n)) =>
      if r.begin != first then None
      else if r.end then (if n == |s| then Some([r]) else None)
      else
        match Records(s[n..], false)
        case None => None
        case Some(rest) => Some([r] + rest)
  }

  datatype Attribute = Attribute(id: int, value: seq<byte>)

  function Get16(s: seq<byte>): int
    requires |s| >= 2
  {
    s[0] as int * 256 + s[1]
  }

  function Attributes(s: seq<byte>): Option<seq<Attribute>>
    decreases |s|
  {
    if s == [] then Some([])
    else if |s| < 4 || |s| < 4 + Get16(s[2..]) then None
    else
      var n := 4 + Get16(s[2..]);
      match Attributes(s[n..])
      case None => None
      case Some(rest) => Some([Attribute(Get16(s), s[4..n])] + rest)
  }

  function Lookup(list: seq<Attribute>, id: int): Option<seq<byte>>
  {
    if list == [] then None else if list[0].id == id then Some(list[0].value) else Lookup(list[1..], id)
  }

  datatype Network = Network(ssid: seq<byte>, password: seq<byte>, auth: seq<byte>, cipher: seq<byte>)

  /** A Wi-Fi Simple Configuration payload: the network inside its credential attribute. */
  function ReadNetwork(payload: seq<byte>): Option<Network>
  {
    match Attributes(payload)
    case None => None
    case Some(outer) =>
      match Lookup(outer, 0x100e)
      case None => None
      case Some(credential) =>
        match Attributes(credential)
        case None => None
        case Some(inner) =>
          match (Lookup(inner, 0x1045), Lookup(inner, 0x1027), Lookup(inner, 0x1003), Lookup(inner, 0x100f))
          case (Some(ssid), Some(password), Some(auth), Some(cipher)) => Some(Network(ssid, password, auth, cipher))
          case _ => None
  }

  /** A well-known URI record, for the two abbreviations the writer uses. */
  function ReadUrl(r: Record): Option<seq<byte>>
  {
    if r.tnf != 1 || r.kind != [LETTER_U] || r.payload == [] then None
    else if r.payload[0] == 3 then Some(HTTP + r.payload[1..])
    else if r.payload[0] == 4 then Some(HTTPS + r.payload[1..])
    else None
  }

  datatype Card = Card(network: Network, url: seq<byte>)

  /** A Wi-Fi record followed by a URI record. */
  function ReadCard(message: seq<byte>): Option<Card>
  {
    match Records(message, true)
    case None => None
    case Some(rs) =>
      if |rs| != 2 || rs[0].tnf != 2 || rs[0].kind != MIME then None
      else
        match (ReadNetwork(rs[0].payload), ReadUrl(rs[1]))
        case (Some(network), Some(url)) => Some(Card(network, url))
        case _ => None
  }

  // ---------------------------------------------------------------- reading inverts writing

  lemma RecordRead(header: byte, kind: seq<byte>, payload: seq<byte>, rest: seq<byte>)
    requires |kind| < 256 && |payload| < 256
    requires header / 32 % 2 == 0 && header / 16 % 2 == 1 && header / 8 % 2 == 0
    ensures FirstRecord(ShortRecord(header, kind, payload) + rest)
         == Some((Record(header / 128 == 1, header / 64 % 2 == 1, header % 8, kind, payload), 3 + |kind| + |payload|))
  {
    var s := ShortRecord(header, kind, payload) + rest;
    assert s[..3] == [header, |kind|, |payload|];
    assert s[0] == s[..3][0] && s[1] == s[..3][1] && s[2] == s[..3][2];
    assert s[3..3 + |kind|] == kind;
    assert s[3 + |kind|..3 + |kind| + |payload|] == payload;
  }

  /** A record that ends a message is the whole of it. */
  lemma LastRecordRead(header: byte, kind: seq<byte>, payload: seq<byte>)
    requires |kind| < 256 && |payload| < 256
    requires header / 64 % 2 == 1 && header / 32 % 2 == 0 && header / 16 % 2 == 1 && header / 8 % 2 == 0
    ensures Records(ShortRecord(header, kind, payload), header / 128 == 1)
         == Some([Record(header / 128 == 1, true, header % 8, kind, payload)])
  {
    hide ShortRecord, FirstRecord;
    RecordRead(header, kind, payload, []);
    assert ShortRecord(header, kind, payload) + [] == ShortRecord(header, kind, payload);
  }

  lemma Get16OfBe16(n: int, rest: seq<byte>)
    requires 0 <= n < TWO_16
    ensures Get16(Be16(n) + rest) == n
  {
  }

  lemma AttributeRead(id: int, value: seq<byte>, rest: seq<byte>)
    requires 0 <= id < TWO_16 && |value| < TWO_16 && Attributes(rest).Some?
    ensures Attributes(Attr(id, value) + rest) == Some([Attribute(id, value)] + Attributes(rest).value)
  {
    hide Get16, Be16;
    var s := Attr(id, value) + rest;
    var n := 4 + |value|;
    Get16OfBe16(id, Be16(|value|) + value + rest);
    assert s == Be16(id) + (Be16(|value|) + value + rest);
    Get16OfBe16(|value|, value + rest);
    assert s[2..] == Be16(|value|) + (value + rest);
    assert s[4..n] == value;
    assert s[n..] == rest;
  }

  lemma NoAttributes()
    ensures Attributes([]) == Some([])
  {
  }

  /** The attributes of a credential, in the order written. */
  lemma CredentialRead(ssid: seq<byte>, password: seq<byte>)
    requires IsNetwork(ssid, password)
    ensures Attributes(Credential(ssid, password)) == Some([
      Attribute(0x1026, [1]), Attribute(0x1045, ssid),
      Attribute(0x1003, [0, if password == [] then 0x01 else 0x20]),
      Attribute(0x100f, [0, if password == [] then 0x01 else 0x08]),
      Attribute(0x1027, password), Attribute(0x1020, [255, 255, 255, 255, 255, 255])])
  {
    hide Attributes, Attr;
    var auth: seq<byte> := [0, if password == [] then 0x01 else 0x20];
    var cipher: seq<byte> := [0, if password == [] then 0x01 else 0x08];
    var mac: seq<byte> := [255, 255, 255, 255, 255, 255];
    NoAttributes();
    AttributeRead(0x1020, mac, []);
    var t1 := Attr(0x1020, mac) + [];
    AttributeRead(0x1027, password, t1);
    var t2 := Attr(0x1027, password) + t1;
    AttributeRead(0x100f, cipher, t2);
    var t3 := Attr(0x100f, cipher) + t2;
    AttributeRead(0x1003, auth, t3);
    var t4 := Attr(0x1003, auth) + t3;
    AttributeRead(0x1045, ssid, t4);
    var t5 := Attr(0x1045, ssid) + t4;
    AttributeRead(0x1026, [1], t5);
    assert Credential(ssid, password) == Attr(0x1026, [1]) + t5;
    assert Attributes(t1).value == [Attribute(0x1020, mac)];
    assert Attributes(t5).value == [Attribute(0x1045, ssid), Attribute(0x1003, auth), Attribute(0x100f, cipher),
      Attribute(0x1027, password), Attribute(0x1020, mac)];
    assert Attributes(Credential(ssid, password)).value == [Attribute(0x1026, [1]), Attribute(0x1045, ssid),
      Attribute(0x1003, auth), Attribute(0x100f, cipher), Attribute(0x1027, password), Attribute(0x1020, mac)];
  }

  lemma {:induction false} LookupAt(list: seq<Attribute>, i: nat)
    requires i < |list| && forall k :: 0 <= k < i ==> list[k].id != list[i].id
    ensures Lookup(list, list[i].id) == Some(list[i].value)
  {
    if i > 0 {
      assert list[0].id != list[i].id;
      assert list[1..][i - 1] == list[i];
      LookupAt(list[1..], i - 1);
    }
  }

  lemma CredentialLookups(inner: seq<Attribute>, ssid: seq<byte>, password: seq<byte>)
    requires |inner| == 6 && inner[0].id == 0x1026 && inner[1] == Attribute(0x1045, ssid)
    requires inner[2].id == 0x1003 && inner[3].id == 0x100f && inner[4] == Attribute(0x1027, password)
    ensures Lookup(inner, 0x1045) == Some(ssid) && Lookup(inner, 0x1027) == Some(password)
    ensures Lookup(inner, 0x1003) == Some(inner[2].value) && Lookup(inner, 0x100f) == Some(inner[3].value)
  {
    LookupAt(inner, 1);
    LookupAt(inner, 2);
    LookupAt(inner, 3);
    LookupAt(inner, 4);
  }

  lemma NetworkRead(ssid: seq<byte>, password: seq<byte>)
    requires IsNetwork(ssid, password)
    ensures ReadNetwork(WifiPayload(ssid, password)) == Some(Network(ssid, password,
      [0, if password == [] then 0x01 else 0x20], [0, if password == [] then 0x01 else 0x08]))
  {
    hide Attributes, Attr, Credential;
    var credential := Credential(ssid, password);
    NoAttributes();
    AttributeRead(0x100e, credential, []);
    AttributeRead(0x104a, [0x10], Attr(0x100e, credential) + []);
    assert WifiPayload(ssid, password) == Attr(0x104a, [0x10]) + (Attr(0x100e, credential) + []);
    var outer := [Attribute(0x104a, [0x10]), Attribute(0x100e, credential)];
    assert Attributes(WifiPayload(ssid, password)).value == outer;
    LookupAt(outer, 1);
    CredentialRead(ssid, password);
    CredentialLookups(Attributes(credential).value, ssid, password);
  }

  lemma UrlRead(url: seq<byte>, begin: bool)
    requires IsUrl(url)
    ensures ReadUrl(Record(begin, true, 1, [LETTER_U], UriPayload(url))) == Some(url)
  {
    var p := SchemeLength(url);
    assert url == (if Secure(url) then HTTPS else HTTP) + url[p..];
    assert UriPayload(url)[1..] == url[p..];
  }

  /** The URL message is one record that reads back as its URL. */
  lemma UrlMessageRead(url: seq<byte>)
    requires IsUrl(url)
    ensures Records(UriRecord(url, true), true).Some?
    ensures var rs := Records(UriRecord(url, true), true).value; |rs| == 1 && ReadUrl(rs[0]) == Some(url)
  {
    hide Records, ReadUrl, IsUrl;
    UrlRead(url, true);
    UrlBounds(url);
    LastRecordRead(0xd1, [LETTER_U], UriPayload(url));
  }

  /** The Wi-Fi message reads back as its SSID, key, security and URL. */
  lemma CardRead(ssid: seq<byte>, password: seq<byte>, url: seq<byte>)
    requires IsNetwork(ssid, password) && IsUrl(url)
    ensures ReadCard(WifiMessage(ssid, password, url)) == Some(Card(Network(ssid, password,
      [0, if password == [] then 0x01 else 0x20], [0, if password == [] then 0x01 else 0x08]), url))
  {
    hide ReadNetwork, ReadUrl, IsUrl, UriPayload, WifiPayload, ShortRecord, FirstRecord;
    var payload := WifiPayload(ssid, password);
    UrlBounds(url);
    NetworkRead(ssid, password);
    UrlRead(url, false);
    LastRecordRead(0x51, [LETTER_U], UriPayload(url));
    var front, back := ShortRecord(0x92, MIME, payload), UriRecord(url, false);
    RecordRead(0x92, MIME, payload, back);
    assert (front + back)[|front|..] == back;
  }

  // ---------------------------------------------------------------- reading a Type 2 tag

  /** The length field of a TLV, its size and the value: one byte, or three when the first is 0xff. */
  function TlvValue(s: seq<byte>): (r: Option<(seq<byte>, nat)>)
    ensures r.Some? ==> r.value.1 <= |s|
  {
    if s == [] || (s[0] == 255 && |s| < 3) then None
    else
      var from := if s[0] == 255 then 3 else 1;
      var n := if s[0] == 255 then Get16(s[1..]) else s[0];
      if from + n <= |s| then Some((s[from..from + n], from + n)) else None
  }

  /** The first NDEF message of the tag's user memory, past NULL TLVs and others, before the terminator. */
  function TagMessage(s: seq<byte>): Option<seq<byte>>
    decreases |s|
  {
    if s == [] || s[0] == 0xfe then None
    else if s[0] == 0 then TagMessage(s[1..])
    else
      match TlvValue(s[1..])
      case None => None
      case Some((value, n)) => if s[0] == 3 then Some(value) else TagMessage(s[1 + n..])
  }

  /** Whatever follows the terminator, the tag reads as the message. */
  lemma Type2Read(message: seq<byte>, rest: seq<byte>)
    requires |message| < TWO_16
    ensures TagMessage(Type2(message) + rest) == Some(message)
  {
    hide Get16, Be16;
    var s, tail := Type2(message) + rest, message + ([0xfe] + rest);
    assert tail[..|message|] == message;
    if |message| <= 254 {
      assert s[1..] == [|message|] + tail;
      assert s[1..][1..1 + |message|] == tail[..|message|];
    } else {
      assert s[1..] == [255] + (Be16(|message|) + tail);
      assert s[1..][1..] == Be16(|message|) + tail;
      Get16OfBe16(|message|, tail);
      assert s[1..][3..3 + |message|] == tail[..|message|];
    }
  }
}
