/** The guard in front of the JSON parser, `smart_todo_json_safe` in components/smart_todo/smart_todo.c. */
module JsonGuard {
  import opened Bytes

  const QUOTE: byte := 0x22
  const BACKSLASH: byte := 0x5c
  const LETTER_U: byte := 0x75
  const ZERO: byte := 0x30
  const DEPTH_MAX := 12
  const LENGTH_MAX := 8192

  predicate Opens(b: byte)
  {
    b == 0x7b || b == 0x5b
  }

  predicate Closes(b: byte)
  {
    b == 0x7d || b == 0x5d
  }

  // ---------------------------------------------------------------- texts as tokens

  /** A character of a string: as it is, or after a backslash. The digits of a code stand as they are. */
  datatype StringItem = Raw(b: byte) | Escape(b: byte)

  /**
   * Any JSON text is a sequence of these; blanks, numbers, names, commas and colons are plain bytes.
   * So are many texts that are not JSON: brackets need not match, nor escapes have a meaning.
   */
  datatype Token = Plain(b: byte) | Open(b: byte) | Close(b: byte) | Quoted(items: seq<StringItem>)

  predicate IsItem(i: StringItem)
  {
    match i
    case Raw(b) => b != 0 && b != QUOTE && b != BACKSLASH
    case Escape(b) => b != 0
  }

  predicate AreItems(items: seq<StringItem>)
  {
    forall k :: 0 <= k < |items| ==> IsItem(items[k])
  }

  predicate IsToken(t: Token)
  {
    match t
    case Plain(b) => b != 0 && b != QUOTE && !Opens(b) && !Closes(b)
    case Open(b) => Opens(b)
    case Close(b) => Closes(b)
    case Quoted(items) => AreItems(items)
  }

  predicate AreTokens(tokens: seq<Token>)
  {
    forall k :: 0 <= k < |tokens| ==> IsToken(tokens[k])
  }

  function ItemBytes(i: StringItem): seq<byte>
  {
    match i
    case Raw(b) => [b]
    case Escape(b) => [BACKSLASH, b]
  }

  function ItemsBytes(items: seq<StringItem>): seq<byte>
  {
    if items == [] then [] else ItemBytes(items[0]) + ItemsBytes(items[1..])
  }

  function TokenBytes(t: Token): seq<byte>
  {
    match t
    case Plain(b) => [b]
    case Open(b) => [b]
    case Close(b) => [b]
    case Quoted(items) => [QUOTE] + ItemsBytes(items) + [QUOTE]
  }

  function Text(tokens: seq<Token>): seq<byte>
  {
    if tokens == [] then [] else TokenBytes(tokens[0]) + Text(tokens[1..])
  }

  /** From this depth the brackets close what they open, all of it, and never nest deeper than allowed. */
  predicate Nested(tokens: seq<Token>, depth: nat)
  {
    if tokens == [] then depth == 0
    else
      match tokens[0]
      case Open(_) => depth < DEPTH_MAX && Nested(tokens[1..], depth + 1)
      case Close(_) => depth > 0 && Nested(tokens[1..], depth - 1)
      case _ => Nested(tokens[1..], depth)
  }

  /** The code of the NUL character, where a decoded C string would end early. */
  const NUL_CODE := [Escape(LETTER_U), Raw(ZERO), Raw(ZERO), Raw(ZERO), Raw(ZERO)]

  predicate HasNul(items: seq<StringItem>)
  {
    items != [] && (NUL_CODE <= items || HasNul(items[1..]))
  }

  predicate HidesNul(t: Token)
  {
    t.Quoted? && HasNul(t.items)
  }

  predicate HidesNuls(tokens: seq<Token>)
  {
    exists k :: 0 <= k < |tokens| && HidesNul(tokens[k])
  }

  /** A text of closed strings and shallow, balanced brackets in which no string hides a NUL. */
  ghost predicate IsSafe(s: seq<byte>)
  {
    exists tokens :: AreTokens(tokens) && Text(tokens) == s && Nested(tokens, 0) && !HidesNuls(tokens)
  }

  // ---------------------------------------------------------------- the scan

  predicate StartsWithZeros(s: seq<byte>, n: nat)
  {
    n == 0 || (s != [] && s[0] == ZERO && StartsWithZeros(s[1..], n - 1))
  }

  function Scan(s: seq<byte>, quoted: bool, escaped: bool, depth: nat): bool
    decreases |s|
  {
    if s == [] then !quoted && depth == 0
    else if s[0] == 0 then false
    else if quoted && escaped then
      !(s[0] == LETTER_U && StartsWithZeros(s[1..], 4)) && Scan(s[1..], true, false, depth)
    else if quoted then Scan(s[1..], s[0] != QUOTE, s[0] == BACKSLASH, depth)
    else if s[0] == QUOTE then Scan(s[1..], true, false, depth)
    else if Opens(s[0]) then depth < DEPTH_MAX && Scan(s[1..], false, false, depth + 1)
    else if Closes(s[0]) then depth > 0 && Scan(s[1..], false, false, depth - 1)
    else Scan(s[1..], false, false, depth)
  }

  lemma {:induction false} FewZeros(s: seq<byte>, n: nat)
    requires |s| < n
    ensures !StartsWithZeros(s, n)
    decreases n
  {
    if s != [] {
      FewZeros(s[1..], n - 1);
    }
  }

  lemma FourZeros(s: seq<byte>)
    ensures StartsWithZeros(s, 4) <==> |s| >= 4 && s[..4] == [ZERO, ZERO, ZERO, ZERO]
  {
    if |s| >= 4 {
      assert s[1..][1..] == s[2..] && s[2..][1..] == s[3..];
      assert StartsWithZeros(s[3..], 1) <==> s[3] == ZERO;
      assert StartsWithZeros(s[2..], 2) <==> s[2] == ZERO && StartsWithZeros(s[3..], 1);
      assert StartsWithZeros(s[1..], 3) <==> s[1] == ZERO && StartsWithZeros(s[2..], 2);
    } else {
      FewZeros(s, 4);
    }
  }

  // ---------------------------------------------------------------- strings

  lemma RawScanned(b: byte, rest: seq<byte>, depth: nat)
    requires b != 0 && b != QUOTE && b != BACKSLASH
    ensures Scan([b] + rest, true, false, depth) == Scan(rest, true, false, depth)
  {
    assert ([b] + rest)[1..] == rest;
  }

  lemma EscapeScanned(b: byte, rest: seq<byte>, depth: nat)
    requires b != 0
    ensures Scan([BACKSLASH, b] + rest, true, false, depth)
         == (!(b == LETTER_U && StartsWithZeros(rest, 4)) && Scan(rest, true, false, depth))
  {
    hide StartsWithZeros;
    var s := [BACKSLASH, b] + rest;
    assert s[1..] == [b] + rest && s[1..][1..] == rest;
  }

  predicate ZeroItems(items: seq<StringItem>, n: nat)
  {
    n == 0 || (items != [] && items[0] == Raw(ZERO) && ZeroItems(items[1..], n - 1))
  }

  lemma {:induction false} ZeroItemsAt(items: seq<StringItem>, n: nat)
    ensures ZeroItems(items, n) <==> n <= |items| && forall k :: 0 <= k < n ==> items[k] == Raw(ZERO)
    decreases n
  {
    if n > 0 && items != [] {
      ZeroItemsAt(items[1..], n - 1);
      assert forall k :: 0 <= k < |items| - 1 ==> items[1..][k] == items[k + 1];
      assert forall k :: 1 <= k < |items| ==> items[k] == items[1..][k - 1];
    }
  }

  lemma NulCodeStarts(items: seq<StringItem>)
    ensures NUL_CODE <= items <==> items != [] && items[0] == Escape(LETTER_U) && ZeroItems(items[1..], 4)
  {
    if items != [] {
      var t := items[1..];
      assert t[..0] == [];
      ZeroItemsAt(t, 4);
      assert |items| >= 5 ==> items[1] == t[0] && items[2] == t[1] && items[3] == t[2] && items[4] == t[3];
    }
  }

  /** Inside a string zero digits are characters that stand as they are. */
  lemma {:induction false} ZerosAreItems(items: seq<StringItem>, rest: seq<byte>, n: nat)
    requires AreItems(items)
    ensures StartsWithZeros(ItemsBytes(items) + ([QUOTE] + rest), n) <==> ZeroItems(items, n)
    decreases n
  {
    hide IsItem;
    if n > 0 {
      var s := ItemsBytes(items) + ([QUOTE] + rest);
      if items == [] {
        assert s == [QUOTE] + rest;
      } else {
        var tail := ItemsBytes(items[1..]) + ([QUOTE] + rest);
        assert s == ItemBytes(items[0]) + tail;
        if items[0] == Raw(ZERO) {
          assert s[1..] == tail;
          ZerosAreItems(items[1..], rest, n - 1);
        }
      }
    }
  }

  /** Inside a string the scan ends at its closing quote, having refused a NUL code. */
  lemma {:induction false} ItemsScanned(items: seq<StringItem>, rest: seq<byte>, depth: nat)
    requires AreItems(items)
    ensures Scan(ItemsBytes(items) + ([QUOTE] + rest), true, false, depth)
         == (!HasNul(items) && Scan(rest, false, false, depth))
  {
    if items == [] {
      assert ItemsBytes(items) + ([QUOTE] + rest) == [QUOTE] + rest;
      assert ([QUOTE] + rest)[1..] == rest;
    } else {
      hide Scan, StartsWithZeros, ZeroItems;
      var tail := ItemsBytes(items[1..]) + ([QUOTE] + rest);
      assert ItemsBytes(items) + ([QUOTE] + rest) == ItemBytes(items[0]) + tail;
      assert IsItem(items[0]);
      ItemsScanned(items[1..], rest, depth);
      NulCodeStarts(items);
      ZerosAreItems(items[1..], rest, 4);
      match items[0]
      case Raw(b) => RawScanned(b, tail, depth);
      case Escape(b) => EscapeScanned(b, tail, depth);
    }
  }

  // ---------------------------------------------------------------- token sequences

  /** A byte outside strings, and the depth after it. */
  lemma ByteScanned(b: byte, rest: seq<byte>, depth: nat)
    ensures Scan([b] + rest, false, false, depth) ==
      if b == QUOTE then Scan(rest, true, false, depth)
      else if Opens(b) then depth < DEPTH_MAX && Scan(rest, false, false, depth + 1)
      else if Closes(b) then depth > 0 && Scan(rest, false, false, depth - 1)
      else b != 0 && Scan(rest, false, false, depth)
  {
    assert ([b] + rest)[1..] == rest;
  }

  function DepthAfter(t: Token, depth: nat): int
  {
    match t
    case Open(_) => depth + 1
    case Close(_) => depth - 1
    case _ => depth
  }

  lemma TokenScanned(t: Token, rest: seq<byte>, depth: nat)
    requires IsToken(t) && depth <= DEPTH_MAX
    ensures Scan(TokenBytes(t) + rest, false, false, depth) ==
      (0 <= DepthAfter(t, depth) <= DEPTH_MAX && !HidesNul(t) && Scan(rest, false, false, DepthAfter(t, depth)))
  {
    hide Scan, AreItems, HasNul;
    match t
    case Quoted(items) =>
      var inside := ItemsBytes(items) + ([QUOTE] + rest);
      assert TokenBytes(t) + rest == [QUOTE] + inside;
      ByteScanned(QUOTE, inside, depth);
      ItemsScanned(items, rest, depth);
    case Plain(b) => ByteScanned(b, rest, depth);
    case Open(b) => ByteScanned(b, rest, depth);
    case Close(b) => ByteScanned(b, rest, depth);
  }

  lemma FirstToken(tokens: seq<Token>, depth: nat)
    requires AreTokens(tokens) && tokens != [] && depth <= DEPTH_MAX
    ensures IsToken(tokens[0]) && AreTokens(tokens[1..])
    ensures Nested(tokens, depth) <==>
      0 <= DepthAfter(tokens[0], depth) <= DEPTH_MAX && Nested(tokens[1..], DepthAfter(tokens[0], depth))
  {
    hide IsToken;
  }

  lemma HidesNulsFirst(tokens: seq<Token>)
    requires tokens != []
    ensures HidesNuls(tokens) <==> HidesNul(tokens[0]) || HidesNuls(tokens[1..])
  {
    assert forall k :: 0 < k < |tokens| ==> tokens[k] == tokens[1..][k - 1];
    if HidesNuls(tokens[1..]) {
      var k :| 0 <= k < |tokens| - 1 && HidesNul(tokens[1..][k]);
      assert HidesNul(tokens[k + 1]);
    }
  }

  /** On every token sequence the scan accepts exactly shallow, balanced nesting without a hidden NUL. */
  lemma {:induction false} TextScanned(tokens: seq<Token>, depth: nat)
    requires AreTokens(tokens) && depth <= DEPTH_MAX
    ensures Scan(Text(tokens), false, false, depth) <==> Nested(tokens, depth) && !HidesNuls(tokens)
    decreases |tokens|
  {
    if tokens != [] {
      hide Scan, IsToken, HidesNul, TokenBytes, HidesNuls, AreTokens, Nested, DepthAfter;
      var head, tail := tokens[0], tokens[1..];
      FirstToken(tokens, depth);
      TokenScanned(head, Text(tail), depth);
      HidesNulsFirst(tokens);
      var after := DepthAfter(head, depth);
      if 0 <= after <= DEPTH_MAX {
        TextScanned(tail, after);
      }
    }
  }

  // ---------------------------------------------------------------- every byte string

  lemma AcceptedItem(s: seq<byte>, depth: nat)
    requires Scan(s, true, false, depth) && s[0] != QUOTE
    ensures s[0] != 0
    ensures s[0] == BACKSLASH ==> |s| >= 2 && s[1] != 0 && Scan(s[2..], true, false, depth)
    ensures s[0] != BACKSLASH ==> Scan(s[1..], true, false, depth)
  {
    hide StartsWithZeros;
    if s[0] == BACKSLASH && |s| >= 2 {
      assert s[1..][1..] == s[2..];
    }
  }

  lemma ItemsJoined(first: StringItem, more: seq<StringItem>, s: seq<byte>, rest: seq<byte>)
    requires AreItems(more) && IsItem(first) && ItemBytes(first) <= s
    requires s[|ItemBytes(first)|..] == ItemsBytes(more) + ([QUOTE] + rest)
    ensures AreItems([first] + more) && s == ItemsBytes([first] + more) + ([QUOTE] + rest)
  {
    assert ([first] + more)[1..] == more;
    assert s == ItemBytes(first) + s[|ItemBytes(first)|..];
  }

  /** What the scan accepts inside a string begins with the rest of that string. */
  lemma {:induction false} AcceptedString(s: seq<byte>, depth: nat) returns (items: seq<StringItem>, rest: seq<byte>)
    requires Scan(s, true, false, depth)
    ensures AreItems(items) && s == ItemsBytes(items) + ([QUOTE] + rest)
    ensures |rest| < |s| && Scan(rest, false, false, depth)
    decreases |s|
  {
    if s[0] == QUOTE {
      items, rest := [], s[1..];
      assert s == [] + ([QUOTE] + rest);
    } else {
      var first := if s[0] == BACKSLASH then Escape(s[1]) else Raw(s[0]);
      var n := if s[0] == BACKSLASH then 2 else 1;
      AcceptedItem(s, depth);
      var more;
      more, rest := AcceptedString(s[n..], depth);
      items := [first] + more;
      ItemsJoined(first, more, s, rest);
    }
  }

  lemma TokensJoined(first: Token, more: seq<Token>, s: seq<byte>)
    requires AreTokens(more) && IsToken(first) && s == TokenBytes(first) + Text(more)
    ensures AreTokens([first] + more) && Text([first] + more) == s
  {
    hide IsToken, TokenBytes;
    assert ([first] + more)[1..] == more;
  }

  /** What the scan accepts outside strings begins with a token. */
  lemma AcceptedToken(s: seq<byte>, depth: nat) returns (first: Token, rest: seq<byte>, after: nat)
    requires s != [] && Scan(s, false, false, depth)
    ensures IsToken(first) && s == TokenBytes(first) + rest && |rest| < |s| && Scan(rest, false, false, after)
  {
    first, rest, after := Plain(s[0]), s[1..], depth;
    if s[0] == QUOTE {
      var items;
      items, rest := AcceptedString(s[1..], depth);
      first := Quoted(items);
      hide Scan, ItemsBytes, AreItems;
      assert s == [QUOTE] + s[1..];
      assert TokenBytes(first) + rest == [QUOTE] + (ItemsBytes(items) + ([QUOTE] + rest));
    } else if Opens(s[0]) {
      first, after := Open(s[0]), depth + 1;
    } else if Closes(s[0]) {
      first, after := Close(s[0]), depth - 1;
    }
  }

  /** Whatever the scan accepts is a token sequence. */
  lemma {:induction false} AcceptedText(s: seq<byte>, depth: nat) returns (tokens: seq<Token>)
    requires Scan(s, false, false, depth)
    ensures AreTokens(tokens) && Text(tokens) == s
    decreases |s|
  {
    tokens := [];
    if s != [] {
      hide Scan, TokenBytes, IsToken, AreTokens, Text;
      var first, rest, after := AcceptedToken(s, depth);
      var more := AcceptedText(rest, after);
      tokens := [first] + more;
      TokensJoined(first, more, s);
    }
  }

  /** Of all byte strings the scan accepts exactly the safe texts. */
  lemma ScanDecides(s: seq<byte>)
    ensures Scan(s, false, false, 0) <==> IsSafe(s)
  {
    hide Scan, AreTokens, Nested, HidesNuls;
    if Scan(s, false, false, 0) {
      var tokens := AcceptedText(s, 0);
      TextScanned(tokens, 0);
      assert IsSafe(s);
    }
    if IsSafe(s) {
      var tokens :| AreTokens(tokens) && Text(tokens) == s && Nested(tokens, 0) && !HidesNuls(tokens);
      TextScanned(tokens, 0);
    }
  }

  // ---------------------------------------------------------------- the loop

  /** The source's loop over the bytes. */
  method JsonSafe(json: seq<byte>) returns (safe: bool)
    ensures safe <==> 1 <= |json| <= LENGTH_MAX && IsSafe(json)
  {
    hide IsSafe;
    ScanDecides(json);
    if |json| == 0 || |json| > 8192 {
      return false;
    }
    var quoted, escaped := false, false;
    var depth := 0;
    assert json[0..] == json;
    for i := 0 to |json|
      invariant 0 <= depth && (escaped ==> quoted)
      invariant Scan(json, false, false, 0) == Scan(json[i..], quoted, escaped, depth)
    {
      var c := json[i];
      assert json[i..][0] == c && json[i..][1..] == json[i + 1..];
      if c == 0 {
        return false;
      }
      if quoted {
        if escaped {
          FourZeros(json[i + 1..]);
          assert i + 4 < |json| ==> json[i + 1..][..4] == json[i + 1..i + 5];
          if c == LETTER_U && i + 4 < |json| && json[i + 1..i + 5] == [ZERO, ZERO, ZERO, ZERO] {
            return false;
          }
          escaped := false;
        } else if c == BACKSLASH {
          escaped := true;
        } else if c == QUOTE {
          quoted := false;
        }
      } else if c == QUOTE {
        quoted := true;
      } else if Opens(c) {
        depth := depth + 1;
        if depth > DEPTH_MAX {
          return false;
        }
      } else if Closes(c) {
        if depth == 0 {
          return false;
        }
        depth := depth - 1;
      }
    }
    return !quoted && depth == 0;
  }
}
