/**
 * UTF-8 as the title validator (components/smart_todo/smart_todo.c) and the display decoder
 * (components/vibe_ui/vibe_i18n.c) read it. A C string is the bytes before its terminator.
 */
module Utf8 {
  import opened Bytes

  // ---------------------------------------------------------------- RFC 3629, section 3

  predicate IsScalar(c: int)
  {
    0 <= c <= 0x10ffff && !(0xd800 <= c <= 0xdfff)
  }

  function Encode(c: int): (s: seq<byte>)
    requires IsScalar(c)
  {
    if c < 0x80 then [c]
    else if c < 0x800 then [0xc0 + c / 64, 0x80 + c % 64]
    else if c < 0x10000 then [0xe0 + c / 64 / 64, 0x80 + c / 64 % 64, 0x80 + c % 64]
    else [0xf0 + c / 64 / 64 / 64, 0x80 + c / 64 / 64 % 64, 0x80 + c / 64 % 64, 0x80 + c % 64]
  }

  predicate AllScalar(cs: seq<int>)
  {
    forall i :: 0 <= i < |cs| ==> IsScalar(cs[i])
  }

  function EncodeAll(cs: seq<int>): seq<byte>
    requires AllScalar(cs)
  {
    if cs == [] then [] else Encode(cs[0]) + EncodeAll(cs[1..])
  }

  /** The text is the encoding of these characters. */
  ghost predicate Spells(cs: seq<int>, s: seq<byte>)
  {
    AllScalar(cs) && EncodeAll(cs) == s
  }

  // ---------------------------------------------------------------- one character, as the source reads it

  predicate IsContinuation(b: byte)
  {
    b / 64 == 2
  }

  /** How many bytes must follow a lead byte of a multi-byte character. */
  function Extra(lead: byte): Option<nat>
  {
    if 0xc2 <= lead <= 0xdf then Some(1)
    else if 0xe0 <= lead <= 0xef then Some(2)
    else if 0xf0 <= lead <= 0xf4 then Some(3)
    else None
  }

  /** The lead byte's own bits: 5, 4 or 3 of them. */
  function LeadBits(lead: byte, extra: nat): nat
  {
    if extra == 1 then lead % 32 else if extra == 2 then lead % 16 else lead % 8
  }

  /** `count` continuation bytes from `i` folded into `cp`. */
  function Fold(s: seq<byte>, i: nat, cp: nat, count: nat): Option<nat>
    decreases count
  {
    if count == 0 then Some(cp)
    else if i < |s| && IsContinuation(s[i]) then Fold(s, i + 1, cp * 64 + s[i] % 64, count - 1)
    else None
  }

  predicate Shortest(cp: nat, extra: nat)
  {
    !(extra == 1 && cp < 0x80) && !(extra == 2 && cp < 0x800) && !(extra == 3 && cp < 0x10000)
    && IsScalar(cp)
  }

  datatype Char = Char(cp: int, length: nat)

  lemma {:induction false} FoldStays(s: seq<byte>, i: nat, cp: nat, count: nat)
    requires i <= |s| && Fold(s, i, cp, count).Some?
    ensures i + count <= |s|
    decreases count
  {
    if count > 0 {
      FoldStays(s, i + 1, cp * 64 + s[i] % 64, count - 1);
    }
  }

  function First(s: seq<byte>): (c: Option<Char>)
    requires s != []
    ensures c.Some? ==> 1 <= c.value.length <= |s| && IsScalar(c.value.cp)
  {
    if s[0] < 0x80 then Some(Char(s[0], 1))
    else
      match Extra(s[0])
      case None => None
      case Some(extra) =>
        match Fold(s, 1, LeadBits(s[0], extra), extra)
        case None => None
        case Some(cp) =>
          FoldStays(s, 1, LeadBits(s[0], extra), extra);
          if Shortest(cp, extra) then Some(Char(cp, extra + 1)) else None
  }

  // ---------------------------------------------------------------- reading inverts encoding

  lemma Fold1(s: seq<byte>, i: nat, cp: nat)
    requires i < |s|
    ensures Fold(s, i, cp, 1) == if IsContinuation(s[i]) then Some(cp * 64 + s[i] % 64) else None
  {
  }

  lemma Fold2(s: seq<byte>, i: nat, cp: nat)
    requires i + 1 < |s|
    ensures Fold(s, i, cp, 2) ==
      if IsContinuation(s[i]) && IsContinuation(s[i + 1])
      then Some((cp * 64 + s[i] % 64) * 64 + s[i + 1] % 64) else None
  {
    Fold1(s, i + 1, cp * 64 + s[i] % 64);
  }

  lemma Fold3(s: seq<byte>, i: nat, cp: nat)
    requires i + 2 < |s|
    ensures Fold(s, i, cp, 3) ==
      if IsContinuation(s[i]) && IsContinuation(s[i + 1]) && IsContinuation(s[i + 2])
      then Some(((cp * 64 + s[i] % 64) * 64 + s[i + 1] % 64) * 64 + s[i + 2] % 64) else None
  {
    Fold2(s, i + 1, cp * 64 + s[i] % 64);
  }

  /** A six-bit group appended to a value is split off again by division. */
  lemma SixBits(q: nat, r: nat)
    requires r < 64
    ensures (q * 64 + r) / 64 == q && (q * 64 + r) % 64 == r
  {
    DivUnique(q * 64 + r, 64, q, r);
  }

  lemma ContinuationBits(b: byte)
    requires IsContinuation(b)
    ensures b == 0x80 + b % 64
  {
  }

  lemma LeadByte(lead: byte, extra: nat)
    requires Extra(lead) == Some(extra)
    ensures extra == 1 ==> lead == 0xc0 + LeadBits(lead, extra)
    ensures extra == 2 ==> lead == 0xe0 + LeadBits(lead, extra)
    ensures extra == 3 ==> lead == 0xf0 + LeadBits(lead, extra)
    ensures 1 <= extra <= 3
  {
  }

  lemma FirstOfTwo(s: seq<byte>)
    requires s != [] && First(s).Some? && First(s).value.length == 2
    ensures s[..2] == Encode(First(s).value.cp)
  {
    hide LeadBits, IsContinuation;
    LeadByte(s[0], 1);
    var lead := LeadBits(s[0], 1);
    Fold1(s, 1, lead);
    ContinuationBits(s[1]);
    SixBits(lead, s[1] % 64);
  }

  lemma FirstOfThree(s: seq<byte>)
    requires s != [] && First(s).Some? && First(s).value.length == 3
    ensures s[..3] == Encode(First(s).value.cp)
  {
    hide LeadBits, IsContinuation;
    LeadByte(s[0], 2);
    var lead := LeadBits(s[0], 2);
    Fold2(s, 1, lead);
    ContinuationBits(s[1]);
    ContinuationBits(s[2]);
    SixBits(lead, s[1] % 64);
    SixBits(lead * 64 + s[1] % 64, s[2] % 64);
  }

  lemma FirstOfFour(s: seq<byte>)
    requires s != [] && First(s).Some? && First(s).value.length == 4
    ensures s[..4] == Encode(First(s).value.cp)
  {
    hide LeadBits, IsContinuation;
    LeadByte(s[0], 3);
    var lead := LeadBits(s[0], 3);
    Fold3(s, 1, lead);
    ContinuationBits(s[1]);
    ContinuationBits(s[2]);
    ContinuationBits(s[3]);
    SixBits(lead, s[1] % 64);
    SixBits(lead * 64 + s[1] % 64, s[2] % 64);
    SixBits((lead * 64 + s[1] % 64) * 64 + s[2] % 64, s[3] % 64);
  }

  /** What is read is the character whose encoding stands at the front. */
  lemma FirstIsEncoded(s: seq<byte>)
    requires s != [] && First(s).Some?
    ensures s[..First(s).value.length] == Encode(First(s).value.cp)
  {
    var n := First(s).value.length;
    if n == 1 {
    } else {
      LeadByte(s[0], n - 1);
      hide First, Encode, Fold, Extra;
      if n == 2 {
        FirstOfTwo(s);
      } else if n == 3 {
        FirstOfThree(s);
      } else {
        FirstOfFour(s);
      }
    }
  }

  lemma EncodedBytes(c: int, s: seq<byte>)
    requires IsScalar(c) && 0x80 <= c && Encode(c) <= s
    ensures
      var extra := |Encode(c)| - 1;
      1 <= extra <= 3 && Extra(s[0]) == Some(extra)
      && (forall i :: 1 <= i <= extra ==> IsContinuation(s[i]))
      && s[extra] % 64 == c % 64
      && (extra == 1 ==> LeadBits(s[0], extra) == c / 64)
      && (extra == 2 ==> LeadBits(s[0], extra) == c / 64 / 64 && s[1] % 64 == c / 64 % 64)
      && (extra == 3 ==> LeadBits(s[0], extra) == c / 64 / 64 / 64 && s[1] % 64 == c / 64 / 64 % 64
                         && s[2] % 64 == c / 64 % 64)
  {
  }

  /** An encoded character at the front is read. */
  lemma EncodedIsFirst(c: int, rest: seq<byte>)
    requires IsScalar(c)
    ensures Encode(c) != [] && First(Encode(c) + rest) == Some(Char(c, |Encode(c)|))
  {
    var s := Encode(c) + rest;
    var extra := |Encode(c)| - 1;
    if extra > 0 {
      EncodedBytes(c, s);
      if extra == 1 {
        Fold1(s, 1, LeadBits(s[0], 1));
      } else if extra == 2 {
        Fold2(s, 1, LeadBits(s[0], 2));
      } else {
        Fold3(s, 1, LeadBits(s[0], 3));
      }
    }
  }

  // ---------------------------------------------------------------- whole texts

  /** The characters of a well-formed text. */
  function Decode(s: seq<byte>): (cs: Option<seq<int>>)
    decreases |s|
  {
    if s == [] then Some([])
    else
      match First(s)
      case None => None
      case Some(c) =>
        match Decode(s[c.length..])
        case None => None
        case Some(rest) => Some([c.cp] + rest)
  }

  /** Decoding finds the characters a text spells, whenever there are any, and no others. */
  lemma {:induction false} DecodeInvertsSpelling(s: seq<byte>, cs: seq<int>)
    ensures Decode(s) == Some(cs) <==> Spells(cs, s)
    decreases |s|, |cs|
  {
    hide First, Encode;
    if Decode(s) == Some(cs) && s != [] {
      var c := First(s).value;
      FirstIsEncoded(s);
      assert cs[1..] == Decode(s[c.length..]).value;
      DecodeInvertsSpelling(s[c.length..], cs[1..]);
      assert s == s[..c.length] + s[c.length..];
    }
    if Spells(cs, s) && cs != [] {
      var rest := EncodeAll(cs[1..]);
      EncodedIsFirst(cs[0], rest);
      assert s == Encode(cs[0]) + rest && s[|Encode(cs[0])|..] == rest;
      DecodeInvertsSpelling(rest, cs[1..]);
      assert cs == [cs[0]] + cs[1..];
    }
  }

  // ---------------------------------------------------------------- the title validator

  predicate IsControl(c: int)
  {
    c < 0x20 || c == 0x7f
  }

  /** A title: well-formed, shorter than `max` bytes, no control character, not blank. */
  ghost predicate IsTitle(s: seq<byte>, max: nat)
  {
    0 < |s| < max &&
    exists cs :: Spells(cs, s) && (forall c :: c in cs ==> c >= 0x20 && c != 0x7f) && (exists c :: c in cs && c != 0x20)
  }

  /** The scan of a text from some byte on, given whether something visible came before. */
  function Scan(s: seq<byte>, visible: bool): bool
    decreases |s|
  {
    if s == [] then visible
    else
      match First(s)
      case None => false
      case Some(c) => !IsControl(c.cp) && Scan(s[c.length..], visible || c.cp != 0x20)
  }

  ghost predicate NoControl(cs: seq<int>)
  {
    forall c :: c in cs ==> !IsControl(c)
  }

  ghost predicate Visible(cs: seq<int>)
  {
    exists c :: c in cs && c != 0x20
  }

  lemma WithFirst(c: int, rest: seq<int>)
    ensures NoControl([c] + rest) <==> !IsControl(c) && NoControl(rest)
    ensures Visible([c] + rest) <==> c != 0x20 || Visible(rest)
  {
    hide IsControl;
    var all := [c] + rest;
    assert forall x :: x in all <==> x == c || x in rest;
    assert c in all;
    if Visible(rest) {
      var x :| x in rest && x != 0x20;
      assert x in all;
    }
  }

  lemma {:induction false} ScanMeaning(s: seq<byte>, visible: bool)
    ensures Scan(s, visible) <==>
      Decode(s).Some? && NoControl(Decode(s).value) && (visible || Visible(Decode(s).value))
    decreases |s|
  {
    if s != [] {
      hide First, IsControl, NoControl, Visible;
      if First(s).Some? {
        var c := First(s).value;
        ScanMeaning(s[c.length..], visible || c.cp != 0x20);
        if Decode(s).Some? {
          WithFirst(c.cp, Decode(s[c.length..]).value);
        }
      }
    }
  }

  lemma TitlesAreScanned(s: seq<byte>, max: nat)
    ensures IsTitle(s, max) <==> 0 < |s| < max && Scan(s, false)
  {
    ScanMeaning(s, false);
    if Decode(s).Some? {
      DecodeInvertsSpelling(s, Decode(s).value);
    }
    forall cs | Spells(cs, s)
      ensures Decode(s) == Some(cs)
    {
      DecodeInvertsSpelling(s, cs);
    }
  }

  /** One turn of the validator's loop: the character at `i`, unless it must be refused. */
  method CharAt(s: seq<byte>, start: nat) returns (c: Option<Char>)
    requires start < |s|
    ensures c == if First(s[start..]).Some? && !IsControl(First(s[start..]).value.cp)
                 then First(s[start..]) else None
  {
    var i, n := start, |s|;
    var b := s[i];
    i := i + 1;
    ghost var rest := s[start..];
    if b < 0x20 || b == 0x7f {
      return None;
    }
    if b < 0x80 {
      return Some(Char(b, 1));
    }
    var cp: nat, extra: nat := 0, 0;
    if 0xc2 <= b <= 0xdf {
      cp, extra := b % 32, 1;
    } else if 0xe0 <= b <= 0xef {
      cp, extra := b % 16, 2;
    } else if 0xf0 <= b <= 0xf4 {
      cp, extra := b % 8, 3;
    } else {
      return None;
    }
    if extra > n - i {
      if Fold(rest, 1, cp, extra).Some? {
        FoldStays(rest, 1, cp, extra);
      }
      return None;
    }
    ghost var folded := Fold(rest, 1, cp, extra);
    for j := 0 to extra
      invariant i == start + 1 + j
      invariant folded == Fold(rest, 1 + j, cp, extra - j)
    {
      b := s[i];
      assert b == rest[1 + j];
      i := i + 1;
      if !IsContinuation(b) {
        return None;
      }
      cp := cp * 64 + b % 64;
    }
    if (extra == 1 && cp < 0x80) || (extra == 2 && cp < 0x800) || (extra == 3 && cp < 0x10000)
       || cp > 0x10ffff || (0xd800 <= cp <= 0xdfff) {
      return None;
    }
    return Some(Char(cp, extra + 1));
  }

  /** `text_valid`, on the bytes before the terminator. */
  method TextValid(s: seq<byte>, max: nat) returns (ok: bool)
    requires 0 !in s
    ensures ok <==> IsTitle(s, max)
  {
    hide First, IsTitle, IsContinuation, LeadBits;
    TitlesAreScanned(s, max);
    if |s| == 0 || |s| >= max {
      return false;
    }
    var n, visible, i := |s|, false, 0;
    while i < n
      invariant 0 <= i <= n
      invariant Scan(s[i..], visible) == Scan(s, false)
      decreases n - i
    {
      var length := CharAt(s, i);
      if length.None? {
        return false;
      }
      visible := visible || length.value.cp != 0x20;
      assert s[i..][length.value.length..] == s[i + length.value.length..];
      i := i + length.value.length;
    }
    return visible;
  }

  // ---------------------------------------------------------------- the display decoder

  /** The byte at `i` of a terminated string. */
  function At(text: seq<byte>, i: nat): byte
    requires i <= |text|
  {
    if i < |text| then text[i] else 0
  }

  /** One call of the decoder inside the text: a character, or `?` and one byte skipped. */
  function Next(text: seq<byte>, cursor: nat): (c: Char)
    requires cursor < |text|
    ensures cursor < cursor + c.length <= |text|
  {
    match First(text[cursor..])
    case Some(c) => c
    case None => Char('?' as int, 1)
  }

  /** `vibe_utf8_next`: the code point, and where the cursor moves; never past the terminator. */
  method Utf8Next(text: seq<byte>, cursor: nat) returns (cp: int, next: nat)
    requires 0 !in text && cursor <= |text|
    ensures cursor == |text| ==> cp == 0 && next == cursor
    ensures cursor < |text| ==>
      cp == Next(text, cursor).cp && next == cursor + Next(text, cursor).length
    ensures cursor < |text| ==> cursor < next <= |text|
  {
    hide IsContinuation;
    var p := At(text, cursor);
    if p == 0 {
      return 0, cursor;
    }
    ghost var rest := text[cursor..];
    if p < 128 {
      return p, cursor + 1;
    }
    var n := if 0xc2 <= p <= 0xdf then 2 else if 0xe0 <= p <= 0xef then 3
             else if 0xf0 <= p <= 0xf4 then 4 else 0;
    if n == 0 {
      return '?' as int, cursor + 1;
    }
    var value: nat := if n == 2 then p % 32 else if n == 3 then p % 16 else p % 8;
    ghost var folded := Fold(rest, 1, value, n - 1);
    for i := 1 to n
      invariant cursor + i <= |text|
      invariant folded == Fold(rest, i, value, n - i)
    {
      var b := At(text, cursor + i);
      if b == 0 || !IsContinuation(b) {
        return '?' as int, cursor + 1;
      }
      assert b == rest[i];
      value := value * 64 + b % 64;
    }
    if (n == 2 && value < 0x80) || (n == 3 && value < 0x800) || (n == 4 && value < 0x10000)
       || value > 0x10ffff || (0xd800 <= value <= 0xdfff) {
      return '?' as int, cursor + 1;
    }
    return value, cursor + n;
  }

  /** The code points of repeated calls from `cursor` until the terminator. */
  function CodePoints(text: seq<byte>, cursor: nat): seq<int>
    requires cursor <= |text|
    decreases |text| - cursor
  {
    if cursor == |text| then []
    else [Next(text, cursor).cp] + CodePoints(text, cursor + Next(text, cursor).length)
  }

  /** On a well-formed text the repeated calls give its characters. */
  lemma {:induction false} DecoderFollowsDecode(text: seq<byte>, cursor: nat)
    requires cursor <= |text| && Decode(text[cursor..]).Some?
    ensures CodePoints(text, cursor) == Decode(text[cursor..]).value
    decreases |text| - cursor
  {
    hide First;
    if cursor < |text| {
      var n := Next(text, cursor).length;
      assert text[cursor..][n..] == text[cursor + n..];
      DecoderFollowsDecode(text, cursor + n);
    }
  }

  /** A title the validator accepts is displayed as the characters whose encoding it is. */
  lemma TitlesDisplayAsWritten(title: seq<byte>, max: nat)
    requires IsTitle(title, max)
    ensures Spells(CodePoints(title, 0), title)
  {
    var cs :| Spells(cs, title);
    DecodeInvertsSpelling(title, cs);
    assert title[0..] == title;
    DecoderFollowsDecode(title, 0);
  }

  /** The display spells a text back exactly when the text is well-formed. */
  lemma DisplayIsFaithful(text: seq<byte>)
    ensures Spells(CodePoints(text, 0), text) <==> exists cs :: Spells(cs, text)
  {
    if exists cs :: Spells(cs, text) {
      var cs :| Spells(cs, text);
      DecodeInvertsSpelling(text, cs);
      assert text[0..] == text;
      DecoderFollowsDecode(text, 0);
    }
  }
}
