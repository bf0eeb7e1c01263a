/** Conversion of a byte to bits. */
module ByteBits8 {
  lemma RoundTrip(b: int)
    requires 0 <= b < 256
    ensures (b as bv8) as int == b
  {
  }
}

/** The CRC-32 of section 8 of RFC 1952, as in components/smart_todo/smart_todo.c. */
module Crc32 {
  import opened Bytes
  import ByteBits8

  const POLYNOMIAL: bv32 := 0xedb88320
  const ALL_ONES: bv32 := 0xffffffff

  function Xor(v: bv32, w: bv32): bv32
  {
    v ^ w
  }

  function Half(v: bv32): bv32
  {
    v >> 1
  }

  /** The polynomial when the low bit is set, otherwise zero. */
  function Feedback(v: bv32): bv32
  {
    POLYNOMIAL & (0 - (v & 1))
  }

  /** One bit of the division. */
  function Step(v: bv32): bv32
  {
    Xor(Half(v), Feedback(v))
  }

  function Steps(v: bv32, n: nat): bv32
    decreases n
  {
    if n == 0 then v else Steps(Step(v), n - 1)
  }

  function ByteBits(b: byte): bv32
  {
    (b as bv8) as bv32
  }

  function Absorb(v: bv32, b: byte): bv32
  {
    Steps(Xor(v, ByteBits(b)), 8)
  }

  function State(v: bv32, s: seq<byte>): bv32
    decreases |s|
  {
    if s == [] then v else State(Absorb(v, s[0]), s[1..])
  }

  function Checksum(s: seq<byte>): bv32
  {
    !State(ALL_ONES, s)
  }

  lemma {:induction false} StateOfConcat(v: bv32, s: seq<byte>, t: seq<byte>)
    ensures State(v, s + t) == State(State(v, s), t)
    decreases |s|
  {
    hide Absorb;
    if s == [] {
      assert s + t == t;
    } else {
      assert (s + t)[1..] == s[1..] + t;
      StateOfConcat(Absorb(v, s[0]), s[1..], t);
    }
  }

  /** The inner loop of `crc32`: eight bits of one byte. */
  method AbsorbByte(start: bv32, b: byte) returns (v: bv32)
    ensures v == Absorb(start, b)
  {
    hide Step, ByteBits, Xor;
    v := Xor(start, ByteBits(b));
    for i := 0 to 8
      invariant Steps(v, 8 - i) == Absorb(start, b)
    {
      v := Step(v);
    }
  }

  /** `crc32`: the state absorbs one byte at a time and is complemented at the end. */
  method Compute(p: seq<byte>) returns (crc: bv32)
    ensures crc == Checksum(p)
  {
    hide Absorb;
    var v := ALL_ONES;
    for n := 0 to |p|
      invariant State(v, p[n..]) == State(ALL_ONES, p)
    {
      assert p[n..][0] == p[n] && p[n..][1..] == p[n + 1..];
      v := AbsorbByte(v, p[n]);
    }
    return !v;
  }

  // ---------------------------------------------------------------- algebra of one bit

  lemma ByteBitsAreSmall(b: byte)
    ensures ByteBits(b) < 0x100
  {
  }

  lemma BitsInjective(x: bv8, y: bv8)
    ensures x as bv32 == y as bv32 ==> x == y
  {
  }

  lemma ByteBitsInjective(b: byte, c: byte)
    ensures ByteBits(b) == ByteBits(c) ==> b == c
  {
    ByteBits8.RoundTrip(b);
    ByteBits8.RoundTrip(c);
    BitsInjective(b as bv8, c as bv8);
  }

  lemma StepInjective(v: bv32, w: bv32)
    ensures Step(v) == Step(w) ==> v == w
  {
  }

  lemma HalfLinear(v: bv32, w: bv32)
    ensures Half(Xor(v, w)) == Xor(Half(v), Half(w))
  {
  }

  lemma FeedbackLinear(v: bv32, w: bv32)
    ensures Feedback(Xor(v, w)) == Xor(Feedback(v), Feedback(w))
  {
  }

  lemma XorAssociates(a: bv32, b: bv32, c: bv32)
    ensures Xor(Xor(a, b), c) == Xor(a, Xor(b, c))
  {
  }

  lemma XorCommutes(a: bv32, b: bv32)
    ensures Xor(a, b) == Xor(b, a)
  {
  }

  lemma XorCancels(a: bv32, b: bv32, c: bv32)
    ensures Xor(a, b) == Xor(a, c) ==> b == c
    ensures Xor(a, 0) == a
  {
  }

  function Twice(v: bv32): bv32
  {
    v << 1
  }

  lemma StepShifts(v: bv32)
    requires v < 0x80000000
    ensures Step(Twice(v)) == v
  {
  }

  lemma {:induction false} StepsLinear(v: bv32, w: bv32, n: nat)
    ensures Steps(Xor(v, w), n) == Xor(Steps(v, n), Steps(w, n))
    decreases n
  {
    hide Half, Feedback, Xor;
    if n > 0 {
      assert Step(Xor(v, w)) == Xor(Step(v), Step(w)) by {
        HalfLinear(v, w);
        FeedbackLinear(v, w);
        XorAssociates(Half(v), Half(w), Xor(Feedback(v), Feedback(w)));
        XorAssociates(Half(w), Feedback(v), Feedback(w));
        XorCommutes(Half(w), Feedback(v));
        XorAssociates(Feedback(v), Half(w), Feedback(w));
        XorAssociates(Half(v), Feedback(v), Xor(Half(w), Feedback(w)));
      }
      StepsLinear(Step(v), Step(w), n - 1);
    }
  }

  lemma {:induction false} StepsInjective(v: bv32, w: bv32, n: nat)
    ensures Steps(v, n) == Steps(w, n) ==> v == w
    decreases n
  {
    hide Step;
    if n > 0 {
      StepInjective(v, w);
      StepsInjective(Step(v), Step(w), n - 1);
    }
  }

  lemma {:induction false} StepsAdd(v: bv32, m: nat, n: nat)
    ensures Steps(Steps(v, m), n) == Steps(v, m + n)
    decreases m
  {
    hide Step;
    if m > 0 {
      StepsAdd(Step(v), m - 1, n);
    }
  }

  // ---------------------------------------------------------------- a window of at most four bytes

  function Above(v: bv32): bv32
  {
    v << 8
  }

  /** The bytes of a window as one word, first byte lowest. */
  function Word(s: seq<byte>): bv32
    decreases |s|
  {
    if s == [] then 0 else Xor(ByteBits(s[0]), Above(Word(s[1..])))
  }

  lemma AboveAddsByte(b: bv32, w: bv32)
    requires b < 0x100
    ensures w < 0x100 ==> Xor(b, Above(w)) < 0x10000
    ensures w < 0x10000 ==> Xor(b, Above(w)) < 0x1000000
    ensures w == 0 ==> Xor(b, Above(w)) == b
  {
  }

  lemma WordOfOne(s: seq<byte>)
    requires |s| == 1
    ensures Word(s) < 0x100
  {
    ByteBitsAreSmall(s[0]);
    assert Word(s[1..]) == 0;
    AboveAddsByte(ByteBits(s[0]), Word(s[1..]));
  }

  lemma WordIsSmall(s: seq<byte>)
    requires |s| <= 3
    ensures Word(s) < 0x1000000
  {
    hide ByteBits, Above, Xor;
    if |s| >= 1 {
      ByteBitsAreSmall(s[0]);
      if |s| == 3 {
        ByteBitsAreSmall(s[1..][0]);
        ByteBitsAreSmall(s[1..][1..][0]);
        WordOfOne(s[1..][1..]);
        AboveAddsByte(ByteBits(s[1]), Word(s[1..][1..]));
        AboveAddsByte(ByteBits(s[0]), Word(s[1..]));
      } else if |s| == 2 {
        WordOfOne(s[1..]);
        AboveAddsByte(ByteBits(s[0]), Word(s[1..]));
      } else {
        WordOfOne(s);
      }
    }
  }

  lemma AboveSplits(b: bv32, c: bv32, v: bv32, w: bv32)
    requires b < 0x100 && c < 0x100 && v < 0x1000000 && w < 0x1000000
    ensures Xor(b, Above(v)) == Xor(c, Above(w)) ==> b == c && v == w
  {
  }

  lemma {:induction false} WordInjective(s: seq<byte>, t: seq<byte>)
    requires |s| == |t| <= 4 && Word(s) == Word(t)
    ensures s == t
    decreases |s|
  {
    hide ByteBits, Above, Xor;
    if s != [] {
      ByteBitsAreSmall(s[0]);
      ByteBitsAreSmall(t[0]);
      WordIsSmall(s[1..]);
      WordIsSmall(t[1..]);
      AboveSplits(ByteBits(s[0]), ByteBits(t[0]), Word(s[1..]), Word(t[1..]));
      ByteBitsInjective(s[0], t[0]);
      WordInjective(s[1..], t[1..]);
    }
  }

  lemma StepDown(v: bv32, n: nat)
    requires v < 0x80000000
    ensures Steps(Twice(v), n + 1) == Steps(v, n)
  {
    hide Step, Twice;
    StepShifts(v);
  }

  lemma AboveDoubles(w: bv32)
    requires w < 0x1000000
    ensures Above(w) == Twice(Twice(Twice(Twice(Twice(Twice(Twice(Twice(w))))))))
    ensures Twice(Twice(Twice(Twice(Twice(Twice(Twice(w))))))) < 0x80000000
    ensures Twice(Twice(Twice(Twice(Twice(Twice(w)))))) < 0x80000000
    ensures Twice(Twice(Twice(Twice(Twice(w))))) < 0x80000000
    ensures Twice(Twice(Twice(Twice(w)))) < 0x80000000
    ensures Twice(Twice(Twice(w))) < 0x80000000
    ensures Twice(Twice(w)) < 0x80000000
    ensures Twice(w) < 0x80000000
  {
  }

  /** Eight steps bring a word down past the byte below it. */
  lemma StepsPastByte(w: bv32)
    requires w < 0x1000000
    ensures Steps(Above(w), 8) == w
  {
    hide Step, Twice, Above;
    AboveDoubles(w);
    var w1 := Twice(w);
    var w2 := Twice(w1);
    var w3 := Twice(w2);
    var w4 := Twice(w3);
    var w5 := Twice(w4);
    var w6 := Twice(w5);
    StepDown(Twice(w6), 7);
    StepDown(w6, 6);
    StepDown(w5, 5);
    StepDown(w4, 4);
    StepDown(w3, 3);
    StepDown(w2, 2);
    StepDown(w1, 1);
    StepDown(w, 0);
  }

  /** Over a window of at most four bytes the state depends on the bytes through their word. */
  lemma {:induction false} StateOfWindow(v: bv32, s: seq<byte>)
    requires |s| <= 4
    ensures State(v, s) == Steps(Xor(v, Word(s)), 8 * |s|)
    decreases |s|
  {
    hide Step, Above, Xor, ByteBits;
    if s == [] {
      XorCancels(v, 0, 0);
    } else {
      var b, w, n := ByteBits(s[0]), Word(s[1..]), 8 * |s[1..]|;
      StateOfWindow(Absorb(v, s[0]), s[1..]);
      WordIsSmall(s[1..]);
      StepsPastByte(w);
      StepsLinear(Xor(v, b), Above(w), 8);
      XorAssociates(v, b, Above(w));
      StepsAdd(Xor(v, Word(s)), 8, n);
    }
  }

  lemma XorInjective(v: bv32, w: bv32, b: bv32)
    ensures Xor(v, b) == Xor(w, b) ==> v == w
  {
  }

  lemma {:induction false} StateInjective(v: bv32, w: bv32, s: seq<byte>)
    ensures State(v, s) == State(w, s) ==> v == w
    decreases |s|
  {
    hide Step, Xor, ByteBits;
    if s != [] {
      StateInjective(Absorb(v, s[0]), Absorb(w, s[0]), s[1..]);
      StepsInjective(Xor(v, ByteBits(s[0])), Xor(w, ByteBits(s[0])), 8);
      XorInjective(v, w, ByteBits(s[0]));
    }
  }

  lemma ComplementInjective(v: bv32, w: bv32)
    ensures !v == !w ==> v == w
  {
  }

  /** Changing the bytes of a window of at most four changes the checksum. */
  lemma BurstDetected(before: seq<byte>, s: seq<byte>, t: seq<byte>, after: seq<byte>)
    requires |s| == |t| <= 4 && s != t
    ensures Checksum(before + s + after) != Checksum(before + t + after)
  {
    hide Step, Xor, Steps, Word, State;
    var v := State(ALL_ONES, before);
    StateOfConcat(ALL_ONES, before + s, after);
    StateOfConcat(ALL_ONES, before + t, after);
    StateOfConcat(ALL_ONES, before, s);
    StateOfConcat(ALL_ONES, before, t);
    StateOfWindow(v, s);
    StateOfWindow(v, t);
    StateInjective(State(v, s), State(v, t), after);
    StepsInjective(Xor(v, Word(s)), Xor(v, Word(t)), 8 * |s|);
    XorCancels(v, Word(s), Word(t));
    if s != t && Word(s) == Word(t) {
      WordInjective(s, t);
    }
    ComplementInjective(State(ALL_ONES, before + s + after), State(ALL_ONES, before + t + after));
  }

  // ---------------------------------------------------------------- the checksum's four bytes

  function LowByte(v: bv32): byte
  {
    (v & 0xff) as bv8 as int
  }

  /** The value shifted down by one byte. */
  function Below(v: bv32): bv32
  {
    v >> 8
  }

  /** `put32` of a checksum. */
  function ChecksumBytes(v: bv32): (s: seq<byte>)
    ensures |s| == 4
  {
    [LowByte(v), LowByte(Below(v)), LowByte(Below(Below(v))), LowByte(Below(Below(Below(v))))]
  }

  /** The bytes of a checksum, least significant first. */
  lemma ChecksumBytesOfLetterA()
    ensures ChecksumBytes(0xe8b7be43) == [0x43, 0xbe, 0xb7, 0xe8]
  {
  }

  lemma LowBytesInjective(v: bv32, w: bv32)
    ensures LowByte(v) == LowByte(w) && Below(v) == Below(w) ==> v == w
  {
  }

  lemma BelowRunsOut(v: bv32)
    ensures Below(Below(Below(Below(v)))) == 0
  {
  }

  lemma ChecksumBytesInjective(v: bv32, w: bv32)
    ensures ChecksumBytes(v) == ChecksumBytes(w) ==> v == w
  {
    hide LowByte, Below;
    if ChecksumBytes(v) == ChecksumBytes(w) {
      assert ChecksumBytes(v)[0] == LowByte(v) && ChecksumBytes(v)[1] == LowByte(Below(v));
      assert ChecksumBytes(v)[2] == LowByte(Below(Below(v)));
      assert ChecksumBytes(v)[3] == LowByte(Below(Below(Below(v))));
      BelowRunsOut(v);
      BelowRunsOut(w);
      LowBytesInjective(Below(Below(Below(v))), Below(Below(Below(w))));
      LowBytesInjective(Below(Below(v)), Below(Below(w)));
      LowBytesInjective(Below(v), Below(w));
      LowBytesInjective(v, w);
    }
  }

  // ---------------------------------------------------------------- a published value

  lemma StepsOfLetterA()
    ensures Step(0xffffff9e) == 0x7fffffcf && Step(0x7fffffcf) == 0xd2477cc7
    ensures Step(0xd2477cc7) == 0x849b3d43 && Step(0x849b3d43) == 0xaff51d81
    ensures Step(0xaff51d81) == 0xba420de0 && Step(0xba420de0) == 0x5d2106f0
    ensures Step(0x5d2106f0) == 0x2e908378 && Step(0x2e908378) == 0x174841bc
  {
  }

  lemma AbsorbLetterA()
    ensures Absorb(ALL_ONES, 0x61) == 0x174841bc
  {
    assert Xor(ALL_ONES, ByteBits(0x61)) == 0xffffff9e;
    hide Step, Xor, ByteBits;
    StepsOfLetterA();
    assert Steps(0xaff51d81, 4) == 0x174841bc;
  }

  /** CRC-32 of the one-byte text "a". */
  lemma ChecksumOfLetterA()
    ensures Checksum([0x61]) == 0xe8b7be43
  {
    hide Absorb;
    AbsorbLetterA();
    assert [0x61][1..] == [];
    assert State(ALL_ONES, [0x61]) == State(Absorb(ALL_ONES, 0x61), []);
  }
}
