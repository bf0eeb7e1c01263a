/** The exact per-day token totals of components/vibe_usage/src/vibe_aggregate.c. */
module UsageAggregate {
  import opened Bytes

  const SOURCE_SLOTS := 24
  const SOURCE_ID_BYTES := 48
  const UINT64_MAX := 0xffff_ffff_ffff_ffff

  // "__other__"
  const OTHER: seq<byte> := [0x5f, 0x5f, 0x6f, 0x74, 0x68, 0x65, 0x72, 0x5f, 0x5f]

  datatype Error = InvalidArgument | Overflow

  /** A named total; a name is the bytes before the terminator. */
  datatype Slot = Slot(id: seq<byte>, tokens: uint64)

  datatype Day = Day(total: uint64, slots: seq<Slot>, buckets: uint32, collapsed: bool)

  // ---------------------------------------------------------------- where tokens are counted

  function Ids(slots: seq<Slot>): (ids: seq<seq<byte>>)
    ensures |ids| == |slots| && forall k :: 0 <= k < |ids| ==> ids[k] == slots[k].id
  {
    seq(|slots|, k requires 0 <= k < |slots| => slots[k].id)
  }

  /** A name that does not fit its slot counts as other. */
  function Normal(source: seq<byte>): seq<byte>
  {
    if |source| >= SOURCE_ID_BYTES then OTHER else source
  }

  /** A new name takes a slot of its own while all but the last are left. */
  function Home(ids: seq<seq<byte>>, name: seq<byte>): seq<byte>
  {
    if name in ids || name == OTHER || |ids| < SOURCE_SLOTS - 1 then name else OTHER
  }

  predicate Distinct(ids: seq<seq<byte>>)
  {
    forall i, j :: 0 <= i < j < |ids| ==> ids[i] != ids[j]
  }

  function Sum(slots: seq<Slot>): (n: nat)
  {
    if slots == [] then 0 else Sum(slots[..|slots| - 1]) + slots[|slots| - 1].tokens
  }

  /** Names are distinct, only the other slot can be the last, and the total is the sum of the slots. */
  ghost predicate Consistent(d: Day)
  {
    && |d.slots| <= SOURCE_SLOTS
    && Distinct(Ids(d.slots))
    && (|d.slots| == SOURCE_SLOTS ==> OTHER in Ids(d.slots))
    && d.total == Sum(d.slots)
  }

  function IndexIn(ids: seq<seq<byte>>, name: seq<byte>): (k: nat)
    requires name in ids
    ensures k < |ids| && ids[k] == name
  {
    if ids[0] == name then 0 else 1 + IndexIn(ids[1..], name)
  }

  lemma {:induction false} SlotBelowSum(slots: seq<Slot>, k: nat)
    requires k < |slots|
    ensures slots[k].tokens <= Sum(slots)
  {
    if k < |slots| - 1 {
      SlotBelowSum(slots[..|slots| - 1], k);
    }
  }

  function Credited(slots: seq<Slot>, home: seq<byte>, tokens: uint64): (r: seq<Slot>)
    requires Sum(slots) + tokens <= UINT64_MAX
  {
    if home in Ids(slots) then
      var k := IndexIn(Ids(slots), home);
      SlotBelowSum(slots, k);
      slots[k := Slot(home, slots[k].tokens + tokens)]
    else slots + [Slot(home, tokens)]
  }

  /** One bucket counted: refused only for an empty name or a total that would not fit 64 bits. */
  function Added(d: Day, source: seq<byte>, tokens: uint64): Result<Day, Error>
    requires d.total == Sum(d.slots)
  {
    if source == [] then Err(InvalidArgument)
    else if d.total + tokens > UINT64_MAX then Err(Overflow)
    else
      var home := Home(Ids(d.slots), Normal(source));
      Ok(Day(d.total + tokens, Credited(d.slots, home, tokens), (d.buckets + 1) % TWO_32,
             d.collapsed || home != source))
  }

  // ---------------------------------------------------------------- sums of slots

  lemma {:induction false} SumOfUpdate(slots: seq<Slot>, k: nat, slot: Slot)
    requires k < |slots|
    ensures Sum(slots[k := slot]) == Sum(slots) - slots[k].tokens + slot.tokens
  {
    var n := |slots| - 1;
    if k < n {
      SumOfUpdate(slots[..n], k, slot);
      assert slots[k := slot][..n] == slots[..n][k := slot];
    } else {
      assert slots[k := slot][..n] == slots[..n];
    }
  }

  lemma SumOfSnoc(slots: seq<Slot>, slot: Slot)
    ensures Sum(slots + [slot]) == Sum(slots) + slot.tokens
  {
    assert (slots + [slot])[..|slots|] == slots;
  }

  lemma SumOfCredited(slots: seq<Slot>, home: seq<byte>, tokens: uint64)
    requires Sum(slots) + tokens <= UINT64_MAX
    ensures Sum(Credited(slots, home, tokens)) == Sum(slots) + tokens
  {
    hide Sum, IndexIn, Ids;
    if home in Ids(slots) {
      var k := IndexIn(Ids(slots), home);
      SlotBelowSum(slots, k);
      SumOfUpdate(slots, k, Slot(home, slots[k].tokens + tokens));
    } else {
      SumOfSnoc(slots, Slot(home, tokens));
    }
  }

  lemma IdsOfCredited(slots: seq<Slot>, home: seq<byte>, tokens: uint64)
    requires Sum(slots) + tokens <= UINT64_MAX
    ensures Ids(Credited(slots, home, tokens)) == if home in Ids(slots) then Ids(slots) else Ids(slots) + [home]
  {
  }

  /** Every accepted bucket keeps the day consistent. */
  lemma AddedIsConsistent(d: Day, source: seq<byte>, tokens: uint64)
    requires Consistent(d) && Added(d, source, tokens).Ok?
    ensures Consistent(Added(d, source, tokens).value)
  {
    hide Credited, Sum, IndexIn;
    var ids, home := Ids(d.slots), Home(Ids(d.slots), Normal(source));
    SumOfCredited(d.slots, home, tokens);
    IdsOfCredited(d.slots, home, tokens);
  }

  // ---------------------------------------------------------------- the candidate

  lemma ConsistentSize(d: Day)
    requires Consistent(d)
    ensures d.total == Sum(d.slots) && (|d.slots| == SOURCE_SLOTS ==> OTHER in Ids(d.slots))
    ensures Distinct(Ids(d.slots)) && |d.slots| <= SOURCE_SLOTS
  {
  }

  lemma {:induction false} FirstIndex(ids: seq<seq<byte>>, name: seq<byte>, index: nat)
    requires index < |ids| && ids[index] == name && forall k :: 0 <= k < index ==> ids[k] != name
    ensures IndexIn(ids, name) == index
  {
    if index > 0 {
      assert ids[0] != name;
      FirstIndex(ids[1..], name, index - 1);
    }
  }

  method SourceLengthBounded(source: seq<byte>) returns (length: nat)
    ensures length == if |source| < SOURCE_ID_BYTES then |source| else SOURCE_ID_BYTES
  {
    length := 0;
    while length < |source| && length < SOURCE_ID_BYTES
      invariant length <= |source| && length <= SOURCE_ID_BYTES
    {
      length := length + 1;
    }
  }

  class DayCandidate {
    const dateKey: int32
    const sources: array<Slot>
    var totalTokens: uint64
    var sourceCount: nat
    var bucketCount: uint32
    var sourcesCollapsed: bool

    ghost predicate Shaped()
      reads this
    {
      sources.Length == SOURCE_SLOTS && sourceCount <= SOURCE_SLOTS
    }

    ghost function Value(): Day
      requires Shaped()
      reads this, sources
    {
      Day(totalTokens, sources[..sourceCount], bucketCount, sourcesCollapsed)
    }

    constructor (dateKey: int32)
      ensures Shaped() && Value() == Day(0, [], 0, false) && this.dateKey == dateKey && fresh(sources)
    {
      this.dateKey := dateKey;
      sources := new Slot[SOURCE_SLOTS](_ => Slot([], 0));
      totalTokens, sourceCount, bucketCount, sourcesCollapsed := 0, 0, 0, false;
    }

    /** The first slot with the name, or the count. */
    method Find(name: seq<byte>) returns (index: nat)
      requires Shaped()
      ensures index <= sourceCount
      ensures index < sourceCount <==> name in Ids(sources[..sourceCount])
      ensures index < sourceCount ==> sources[index].id == name && index == IndexIn(Ids(sources[..sourceCount]), name)
    {
      ghost var ids := Ids(sources[..sourceCount]);
      index := 0;
      while index < sourceCount
        invariant index <= sourceCount && forall k :: 0 <= k < index ==> ids[k] != name
      {
        if sources[index].id == name {
          assert ids[index] == name;
          FirstIndex(ids, name, index);
          return;
        }
        index := index + 1;
      }
    }

    /** `vibe_day_candidate_add`. Its full-table and per-slot overflow returns cannot be taken. */
    method Add(source: seq<byte>, tokens: uint64) returns (error: Option<Error>)
      requires Shaped() && Consistent(Value())
      modifies this, sources
      ensures Shaped() && Consistent(Value())
      ensures error == match Added(old(Value()), source, tokens) case Ok(_) => None case Err(e) => Some(e)
      ensures Value() == match Added(old(Value()), source, tokens) case Ok(d) => d case Err(_) => old(Value())
    {
      hide Consistent, Sum, Credited, IndexIn, Ids;
      ConsistentSize(Value());
      if source == [] {
        return Some(InvalidArgument);
      }
      if UINT64_MAX - totalTokens < tokens {
        return Some(Overflow);
      }
      ghost var before := Value();
      AddedIsConsistent(before, source, tokens);
      var length := SourceLengthBounded(source);
      var tooLong := length >= SOURCE_ID_BYTES;
      var normalized := if tooLong then OTHER else source;
      var collapsed := tooLong;
      var index := Find(normalized);
      if index == sourceCount {
        var isOther := normalized == OTHER;
        if !isOther && sourceCount >= SOURCE_SLOTS - 1 {
          normalized := OTHER;
          collapsed := true;
          index := Find(normalized);
        }
      }
      assert normalized == Home(Ids(before.slots), Normal(source));
      error := Credit(normalized, index, tokens, collapsed);
    }

    /** The tail of the same method: the slot is taken if it is new, and credited. */
    method Credit(name: seq<byte>, index: nat, tokens: uint64, collapsed: bool) returns (error: Option<Error>)
      requires Shaped() && Consistent(Value()) && totalTokens + tokens <= UINT64_MAX && index <= sourceCount
      requires |name| < SOURCE_ID_BYTES
      requires index < sourceCount <==> name in Ids(sources[..sourceCount])
      requires index < sourceCount ==> index == IndexIn(Ids(sources[..sourceCount]), name)
      requires index == sourceCount ==> sourceCount < SOURCE_SLOTS
      modifies this, sources
      ensures Shaped() && error == None
      ensures Sum(old(Value().slots)) + tokens <= UINT64_MAX
      ensures Value() == Day(old(totalTokens) + tokens, Credited(old(Value()).slots, name, tokens),
                             (old(bucketCount) + 1) % TWO_32, old(sourcesCollapsed) || collapsed)
    {
      hide Sum, IndexIn;
      ghost var slots := Value().slots;
      sourcesCollapsed := sourcesCollapsed || collapsed;
      if index == sourceCount {
        if sourceCount >= SOURCE_SLOTS {
          return Some(Overflow);
        }
        sources[index] := Slot(name, 0);
        sourceCount := sourceCount + 1;
      } else {
        SlotBelowSum(slots, index);
      }
      if UINT64_MAX - sources[index].tokens < tokens {
        return Some(Overflow);
      }
      sources[index] := Slot(name, sources[index].tokens + tokens);
      totalTokens := totalTokens + tokens;
      bucketCount := (bucketCount + 1) % TWO_32;
      error := None;
    }
  }
}
