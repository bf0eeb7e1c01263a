/** What any run of bucket additions amounts to, and the shares shown for it. */
module UsageLaws {
  import opened Bytes
  import opened UsageAggregate

  datatype Bucket = Bucket(source: seq<byte>, tokens: uint64)

  /** The day after the buckets, refused ones leaving it as it was. */
  ghost function Run(buckets: seq<Bucket>): (d: Day)
    ensures Consistent(d)
  {
    if buckets == [] then Day(0, [], 0, false)
    else
      var d := Run(buckets[..|buckets| - 1]);
      var b := buckets[|buckets| - 1];
      match Added(d, b.source, b.tokens)
      case Ok(next) => (AddedIsConsistent(d, b.source, b.tokens); next)
      case Err(_) => d
  }

  ghost function Accepted(buckets: seq<Bucket>): seq<Bucket>
  {
    if buckets == [] then []
    else
      var front := buckets[..|buckets| - 1];
      var b := buckets[|buckets| - 1];
      if Added(Run(front), b.source, b.tokens).Ok? then Accepted(front) + [b] else Accepted(front)
  }

  function Total(buckets: seq<Bucket>): nat
  {
    if buckets == [] then 0 else Total(buckets[..|buckets| - 1]) + buckets[|buckets| - 1].tokens
  }

  /** The slot a source's tokens belong to: its own, or the other one. */
  function Owner(ids: seq<seq<byte>>, source: seq<byte>): seq<byte>
  {
    if Normal(source) in ids then Normal(source) else OTHER
  }

  function TokensOf(buckets: seq<Bucket>, ids: seq<seq<byte>>, id: seq<byte>): nat
  {
    if buckets == [] then 0
    else
      var b := buckets[|buckets| - 1];
      TokensOf(buckets[..|buckets| - 1], ids, id) + if Owner(ids, b.source) == id then b.tokens else 0
  }

  ghost predicate PlacedAt(source: seq<byte>, ids: seq<seq<byte>>)
  {
    Normal(source) in ids || (OTHER in ids && |ids| >= SOURCE_SLOTS - 1)
  }

  /** Every counted source has a slot: its own, or the other one once the named ones have run out. */
  ghost predicate Placed(buckets: seq<Bucket>, ids: seq<seq<byte>>)
  {
    forall k :: 0 <= k < |buckets| ==> PlacedAt(buckets[k].source, ids)
  }

  ghost predicate Collapsed(buckets: seq<Bucket>, ids: seq<seq<byte>>)
  {
    exists k :: 0 <= k < |buckets| && Owner(ids, buckets[k].source) != buckets[k].source
  }

  /** The day tells the truth about these buckets. */
  ghost predicate Truthful(d: Day, counted: seq<Bucket>)
  {
    var ids := Ids(d.slots);
    && Consistent(d) && d.total == Total(counted)
    && Placed(counted, ids)
    && (forall i :: 0 <= i < |d.slots| ==> d.slots[i].tokens == TokensOf(counted, ids, d.slots[i].id))
    && d.buckets == |counted| % TWO_32
    && (d.collapsed <==> Collapsed(counted, ids))
  }

  // ---------------------------------------------------------------- one addition

  /** A slot taken later never belongs to a source counted before. */
  lemma OwnerStays(ids: seq<seq<byte>>, home: seq<byte>, source: seq<byte>)
    requires PlacedAt(source, ids) && (|ids| >= SOURCE_SLOTS - 1 ==> home == OTHER)
    ensures Owner(ids + [home], source) == Owner(ids, source) && PlacedAt(source, ids + [home])
  {
  }

  lemma {:induction false} TokensStay(counted: seq<Bucket>, ids: seq<seq<byte>>, home: seq<byte>, id: seq<byte>)
    requires Placed(counted, ids) && (|ids| >= SOURCE_SLOTS - 1 ==> home == OTHER)
    ensures TokensOf(counted, ids + [home], id) == TokensOf(counted, ids, id)
  {
    if counted != [] {
      var n := |counted| - 1;
      assert PlacedAt(counted[n].source, ids);
      OwnerStays(ids, home, counted[n].source);
      assert forall k :: 0 <= k < n ==> PlacedAt(counted[..n][k].source, ids);
      TokensStay(counted[..n], ids, home, id);
    }
  }

  /** A name without a slot has nothing counted for it. */
  lemma {:induction false} NoTokensYet(counted: seq<Bucket>, ids: seq<seq<byte>>, home: seq<byte>)
    requires Placed(counted, ids) && home !in ids
    ensures TokensOf(counted, ids, home) == 0
  {
    if counted != [] {
      var n := |counted| - 1;
      assert PlacedAt(counted[n].source, ids);
      assert forall k :: 0 <= k < n ==> PlacedAt(counted[..n][k].source, ids);
      NoTokensYet(counted[..n], ids, home);
    }
  }

  lemma PlacedStays(counted: seq<Bucket>, ids: seq<seq<byte>>, home: seq<byte>)
    requires Placed(counted, ids) && (|ids| >= SOURCE_SLOTS - 1 ==> home == OTHER)
    ensures Placed(counted, ids + [home])
    ensures Collapsed(counted, ids + [home]) <==> Collapsed(counted, ids)
  {
    hide Owner, PlacedAt;
    forall k | 0 <= k < |counted|
      ensures PlacedAt(counted[k].source, ids + [home])
      ensures Owner(ids + [home], counted[k].source) == Owner(ids, counted[k].source)
    {
      OwnerStays(ids, home, counted[k].source);
    }
  }

  /** The slots before the new bucket is counted, with the one it needs. */
  lemma SlotReady(d: Day, counted: seq<Bucket>, home: seq<byte>, ids: seq<seq<byte>>, i: nat)
    requires Truthful(d, counted) && (|d.slots| >= SOURCE_SLOTS - 1 && home !in Ids(d.slots) ==> home == OTHER)
    requires ids == (if home in Ids(d.slots) then Ids(d.slots) else Ids(d.slots) + [home])
    requires i < |ids|
    ensures TokensOf(counted, ids, ids[i]) == if i < |d.slots| then d.slots[i].tokens else 0
  {
    hide Consistent, Total, TokensOf, PlacedAt, Collapsed, Ids;
    if home !in Ids(d.slots) {
      TokensStay(counted, Ids(d.slots), home, ids[i]);
      if i == |d.slots| {
        NoTokensYet(counted, Ids(d.slots), home);
      }
    }
  }

  /** The home chosen for a source is the slot that owns it afterwards. */
  lemma HomeOwns(ids: seq<seq<byte>>, source: seq<byte>)
    requires Distinct(ids) && |ids| <= SOURCE_SLOTS
    ensures
      var home := Home(ids, Normal(source));
      var next := if home in ids then ids else ids + [home];
      Owner(next, source) == home && PlacedAt(source, next)
      && (|ids| >= SOURCE_SLOTS - 1 && home !in ids ==> home == OTHER)
  {
  }

  lemma TokensOfSnoc(counted: seq<Bucket>, b: Bucket, ids: seq<seq<byte>>, id: seq<byte>)
    ensures TokensOf(counted + [b], ids, id)
         == TokensOf(counted, ids, id) + if Owner(ids, b.source) == id then b.tokens else 0
  {
    assert (counted + [b])[..|counted|] == counted;
  }

  lemma HomeOwnsDay(d: Day, source: seq<byte>)
    requires Consistent(d)
    ensures
      var ids := Ids(d.slots);
      var home := Home(ids, Normal(source));
      var next := if home in ids then ids else ids + [home];
      Owner(next, source) == home && PlacedAt(source, next)
      && (|ids| >= SOURCE_SLOTS - 1 && home !in ids ==> home == OTHER)
  {
    HomeOwns(Ids(d.slots), source);
  }

  lemma CreditedAt(slots: seq<Slot>, home: seq<byte>, tokens: uint64, i: nat)
    requires Sum(slots) + tokens <= UINT64_MAX && i < |Credited(slots, home, tokens)| && Distinct(Ids(slots))
    ensures
      var after := Credited(slots, home, tokens);
      var was := if i < |slots| then slots[i].tokens else 0;
      after[i].tokens == was + if after[i].id == home then tokens else 0
  {
    if home in Ids(slots) {
      var k := IndexIn(Ids(slots), home);
      SlotBelowSum(slots, k);
      assert Ids(slots)[k] == home && Ids(slots)[i] == slots[i].id;
    } else if i < |slots| {
      assert Ids(slots)[i] == slots[i].id;
    }
  }

  /** The credited slot and the others, after one bucket. */
  lemma SlotCounts(d: Day, counted: seq<Bucket>, b: Bucket, i: nat)
    requires Truthful(d, counted) && Added(d, b.source, b.tokens).Ok?
    requires i < |Added(d, b.source, b.tokens).value.slots|
    ensures
      var next := Added(d, b.source, b.tokens).value;
      next.slots[i].tokens == TokensOf(counted + [b], Ids(next.slots), next.slots[i].id)
  {
    hide Consistent, Total, TokensOf, Placed, Collapsed, IndexIn, Sum, Home, Credited, Distinct, Ids;
    ConsistentSize(d);
    var home := Home(Ids(d.slots), Normal(b.source));
    var next := Added(d, b.source, b.tokens).value;
    var ids := Ids(next.slots);
    HomeOwnsDay(d, b.source);
    IdsOfCredited(d.slots, home, b.tokens);
    SlotReady(d, counted, home, ids, i);
    CreditedAt(d.slots, home, b.tokens, i);
    TokensOfSnoc(counted, b, ids, ids[i]);
  }

  lemma PlacedSnoc(counted: seq<Bucket>, b: Bucket, ids: seq<seq<byte>>)
    requires Placed(counted, ids) && PlacedAt(b.source, ids)
    ensures Placed(counted + [b], ids)
    ensures Collapsed(counted + [b], ids) <==> Collapsed(counted, ids) || Owner(ids, b.source) != b.source
  {
    hide Owner, PlacedAt;
    var all := counted + [b];
    assert all[|counted|] == b;
    assert forall k :: 0 <= k < |counted| ==> all[k] == counted[k];
  }

  lemma PlacedNext(d: Day, counted: seq<Bucket>, b: Bucket)
    requires Truthful(d, counted) && Added(d, b.source, b.tokens).Ok?
    ensures
      var next := Added(d, b.source, b.tokens).value;
      Placed(counted + [b], Ids(next.slots)) && (next.collapsed <==> Collapsed(counted + [b], Ids(next.slots)))
  {
    hide Consistent, Total, TokensOf, Credited, Sum, PlacedAt, Owner, Home, Ids, Distinct;
    ConsistentSize(d);
    var ids := Ids(d.slots);
    var home := Home(ids, Normal(b.source));
    HomeOwnsDay(d, b.source);
    IdsOfCredited(d.slots, home, b.tokens);
    if home !in ids {
      PlacedStays(counted, ids, home);
    }
    PlacedSnoc(counted, b, if home in ids then ids else ids + [home]);
  }

  /** An accepted bucket is added to the truth. */
  lemma AddedIsTruthful(d: Day, counted: seq<Bucket>, b: Bucket)
    requires Truthful(d, counted) && Added(d, b.source, b.tokens).Ok?
    ensures Truthful(Added(d, b.source, b.tokens).value, counted + [b])
  {
    hide TokensOf, Placed, Collapsed, Credited, Consistent, Sum, Home, Owner, Ids;
    ConsistentSize(d);
    AddedIsConsistent(d, b.source, b.tokens);
    PlacedNext(d, counted, b);
    assert (counted + [b])[..|counted|] == counted;
    var next := Added(d, b.source, b.tokens).value;
    forall i | 0 <= i < |next.slots|
      ensures next.slots[i].tokens == TokensOf(counted + [b], Ids(next.slots), next.slots[i].id)
    {
      SlotCounts(d, counted, b, i);
    }
  }

  // ---------------------------------------------------------------- every run

  /**
   * After any run the total and the slots hold exactly the accepted tokens, each source's in one
   * slot, its own or the other one, and the candidate says whether sources were merged.
   */
  lemma {:induction false} RunIsTruthful(buckets: seq<Bucket>)
    ensures Truthful(Run(buckets), Accepted(buckets))
  {
    if buckets == [] {
      var none: seq<Bucket> := [];
      assert Truthful(Day(0, [], 0, false), none);
    } else {
      hide Truthful;
      RunIsTruthful(buckets[..|buckets| - 1]);
      var d, b := Run(buckets[..|buckets| - 1]), buckets[|buckets| - 1];
      if Added(d, b.source, b.tokens).Ok? {
        AddedIsTruthful(d, Accepted(buckets[..|buckets| - 1]), b);
      }
    }
  }

  /** A bucket is refused exactly when it has no name or the exact total would not fit 64 bits. */
  lemma RefusedIff(buckets: seq<Bucket>, b: Bucket)
    ensures Added(Run(buckets), b.source, b.tokens) == Err(InvalidArgument) <==> b.source == []
    ensures Added(Run(buckets), b.source, b.tokens) == Err(Overflow) <==>
      b.source != [] && Total(Accepted(buckets)) + b.tokens > UINT64_MAX
    ensures Sum(Run(buckets).slots) == Total(Accepted(buckets))
  {
    hide TokensOf, Placed, Collapsed, Credited;
    RunIsTruthful(buckets);
  }

  function TokensNamed(buckets: seq<Bucket>, name: seq<byte>): nat
  {
    if buckets == [] then 0
    else
      var b := buckets[|buckets| - 1];
      TokensNamed(buckets[..|buckets| - 1], name) + if b.source == name then b.tokens else 0
  }

  lemma {:induction false} OwnedAreNamed(buckets: seq<Bucket>, ids: seq<seq<byte>>, id: seq<byte>)
    requires id in ids && id != OTHER && |id| < SOURCE_ID_BYTES
    ensures TokensOf(buckets, ids, id) == TokensNamed(buckets, id)
  {
    if buckets != [] {
      OwnedAreNamed(buckets[..|buckets| - 1], ids, id);
    }
  }

  /**
   * A source whose name fits has a slot of its own unless the named ones have run out, and then, like one
   * whose name is too long, it is counted as other. Every slot's name fits.
   */
  lemma SourcesHaveSlots(buckets: seq<Bucket>, k: nat)
    requires k < |Accepted(buckets)|
    ensures
      var (ids, source) := (Ids(Run(buckets).slots), Accepted(buckets)[k].source);
      && (|source| < 48 ==> source in ids || (OTHER in ids && |ids| >= 23))
      && (|source| >= 48 ==> OTHER in ids)
  {
    hide Total, Collapsed, Consistent, TokensOf, Run, Accepted;
    RunIsTruthful(buckets);
    assert PlacedAt(Accepted(buckets)[k].source, Ids(Run(buckets).slots));
  }

  lemma {:induction false} SlotNamesFit(buckets: seq<Bucket>)
    ensures forall i :: 0 <= i < |Run(buckets).slots| ==> |Run(buckets).slots[i].id| < 48
  {
    if buckets != [] {
      SlotNamesFit(buckets[..|buckets| - 1]);
    }
  }

  /** A named slot holds every accepted token of its name, and the other slot none of them. */
  lemma NamedSlotHoldsAll(buckets: seq<Bucket>, i: nat)
    requires i < |Run(buckets).slots| && Run(buckets).slots[i].id != OTHER
    ensures Run(buckets).slots[i].tokens == TokensNamed(Accepted(buckets), Run(buckets).slots[i].id)
  {
    hide Total, Placed, Collapsed, Consistent;
    RunIsTruthful(buckets);
    var ids := Ids(Run(buckets).slots);
    assert ids[i] == Run(buckets).slots[i].id;
    SlotNamesFit(buckets);
    OwnedAreNamed(Accepted(buckets), ids, ids[i]);
  }

  // ---------------------------------------------------------------- shares

  /** The part in ten-thousandths of the total, rounded down; nothing of nothing. */
  function Share(part: nat, total: nat): nat
    requires part <= total
  {
    if total == 0 then 0 else part * 10000 / total
  }

  /** `vibe_basis_points` where there is no 128-bit type: a long division that never leaves 64 bits. */
  method BasisPoints(part: uint64, total: uint64) returns (share: nat)
    ensures part <= total ==> share == Share(part, total)
    ensures part > total ==> share == if total == 0 then 0 else 10000
  {
    if total == 0 || part == 0 {
      return 0;
    }
    if part >= total {
      DivUnique(total * 10000, total, 10000, 0);
      return 10000;
    }
    var remainder: uint64 := 0;
    share := 0;
    for i := 0 to 10000
      invariant remainder < total && share <= i && share * total + remainder == i * part
    {
      if remainder >= total - part {
        remainder := remainder - (total - part);
        share := share + 1;
        assert share * total == (share - 1) * total + total;
      } else {
        remainder := remainder + part;
      }
    }
    DivUnique(part * 10000, total, share, remainder);
  }

  lemma ShareBounds(part: nat, total: nat)
    requires part <= total && total > 0
    ensures Share(part, total) * total <= part * 10000 < Share(part, total) * total + total
  {
    var q, r := part * 10000 / total, part * 10000 % total;
    assert part * 10000 == total * q + r;
  }

  function Shares(slots: seq<Slot>, total: nat): nat
    requires Sum(slots) <= total
  {
    if slots == [] then 0
    else
      (SlotBelowSum(slots, |slots| - 1);
      Shares(slots[..|slots| - 1], total) + Share(slots[|slots| - 1].tokens, total))
  }

  lemma BoundsAdd(total: nat, x: nat, sum: nat, n: nat, y: nat, part: nat)
    requires total > 0 && x * total <= sum * 10000 <= x * total + n * (total - 1)
    requires y * total <= part * 10000 < y * total + total
    ensures (x + y) * total <= (sum + part) * 10000 <= (x + y) * total + (n + 1) * (total - 1)
  {
    assert (x + y) * total == x * total + y * total;
    assert (n + 1) * (total - 1) == n * (total - 1) + (total - 1);
  }

  lemma {:induction false} SharesBounds(slots: seq<Slot>, total: nat)
    requires Sum(slots) <= total && total > 0
    ensures Shares(slots, total) * total <= Sum(slots) * 10000 <= Shares(slots, total) * total + |slots| * (total - 1)
  {
    hide Share;
    if slots != [] {
      var front, last := slots[..|slots| - 1], slots[|slots| - 1].tokens;
      SlotBelowSum(slots, |slots| - 1);
      SharesBounds(front, total);
      ShareBounds(last, total);
      BoundsAdd(total, Shares(front, total), Sum(front), |front|, Share(last, total), last);
    }
  }

  lemma TotalIsSum(d: Day)
    requires Consistent(d)
    ensures d.total == Sum(d.slots) && (d.total > 0 ==> d.slots != [])
  {
  }

  lemma SharesNear(shares: nat, n: nat, total: nat)
    requires total > 0 && n > 0 && shares * total <= total * 10000 <= shares * total + n * (total - 1)
    ensures 10000 - n < shares <= 10000
  {
    var over, under := shares - 10000, 10000 - shares - n;
    assert over * total == shares * total - 10000 * total;
    NonzeroMultiple(over, total);
    assert under * total == 10000 * total - (shares + n) * total;
    assert (shares + n) * total == shares * total + n * total;
    assert n * (total - 1) == n * total - n;
    NonzeroMultiple(under, total);
  }

  /** The shares of a day's sources sum to at most 10000 and fall short by less than a point a source. */
  lemma SharesNearlyWhole(buckets: seq<Bucket>)
    requires Run(buckets).total > 0
    ensures Sum(Run(buckets).slots) == Run(buckets).total
    ensures 10000 - |Run(buckets).slots| < Shares(Run(buckets).slots, Run(buckets).total) <= 10000
  {
    hide Share, Shares, Run;
    TotalIsSum(Run(buckets));
    var slots, total := Run(buckets).slots, Run(buckets).total;
    SharesBounds(slots, total);
    SharesNear(Shares(slots, total), |slots|, total);
  }
}
