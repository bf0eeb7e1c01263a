/** Recurrence without drift, and the draining of overdue reminders at one instant. */
module TodoReminders {
  import opened Bytes
  import opened Todo
  import TodoLaws
  import Utf8

  // ---------------------------------------------------------------- recurrence

  lemma MulMonotone(x: int, y: int, r: int)
    requires x <= y && 0 <= r
    ensures x * r <= y * r
  {
  }

  lemma MultipleOf(t: int, k: int, r: int)
    requires r > 0
    ensures (t + k * r) % r == t % r
  {
    var q := t / r;
    assert t == q * r + t % r;
    assert (q + k) * r == q * r + k * r;
    DivUnique(t + k * r, r, q + k, t % r);
  }

  /** The first multiple of `r` beyond `gap`. */
  lemma FirstMultipleBeyond(gap: int, r: int, m: int)
    requires gap >= 0 && r > 0
    ensures (gap / r + 1) * r > gap && (gap / r + 1) * r % r == 0
    ensures m > gap && m % r == 0 ==> (gap / r + 1) * r <= m
  {
    var s := gap / r + 1;
    assert gap == (s - 1) * r + gap % r;
    assert s * r == (s - 1) * r + r;
    MultipleOf(0, s, r);
    var q := m / r;
    if m > gap && m % r == 0 {
      assert m == q * r;
      if q < s {
        MulMonotone(q, s - 1, r);
        assert false;
      }
      MulMonotone(s, q, r);
    }
  }

  /** The next due time is the least instant after `now` in step with the first one. */
  lemma NextDueIsLeast(a: Item, now: int64, t: int)
    requires a.repeat != 0 && a.due <= now
    ensures NextDue(a, now) > now && (NextDue(a, now) - a.due) % a.repeat == 0
    ensures t > now && (t - a.due) % a.repeat == 0 ==> NextDue(a, now) <= t
  {
    FirstMultipleBeyond(now - a.due, a.repeat, t - a.due);
  }

  lemma SameStep(a: int, b: int, t: int, r: int)
    requires r > 0 && (b - a) % r == 0
    ensures (t - a) % r == 0 <==> (t - b) % r == 0
  {
    var k := (b - a) / r;
    assert b - a == k * r;
    MultipleOf(t - b, k, r);
  }

  /** Alerting at `t1` and again at `t2` leaves the due time that one alert at `t2` gives. */
  lemma AlertsDoNotDrift(a: Item, t1: int64, t2: int64)
    requires a.repeat != 0 && !RemindFails(a, t1) && t1 <= t2
    ensures
      var once := Advanced(a, t1);
      once.repeat == a.repeat && once.due > t1 &&
      NextDue(a, t2) == if once.due <= t2 then NextDue(once, t2) else once.due
  {
    hide NextDue;
    var once := Advanced(a, t1);
    var r := a.repeat;
    var direct := NextDue(a, t2);
    NextDueIsLeast(a, t1, direct);
    NextDueIsLeast(a, t2, once.due);
    if once.due <= t2 {
      var twice := NextDue(once, t2);
      NextDueIsLeast(once, t2, direct);
      NextDueIsLeast(a, t2, twice);
      SameStep(a.due, once.due, direct, r);
      SameStep(a.due, once.due, twice, r);
    }
  }

  // ---------------------------------------------------------------- one task among others

  lemma IdsAreUnique(l: List, i: nat, j: nat)
    requires ValidList(l) && i < |l.items| && j < |l.items|
    ensures l.items[i].id == l.items[j].id ==> i == j
  {
    hide ValidItem;
  }

  /** With unique ids a successful lookup by id finds the one item that has it. */
  lemma IndexIsUnique(l: List, k: nat)
    requires ValidList(l) && k < |l.items|
    ensures IndexOf(l.items, l.items[k].id) == Some(k)
  {
    hide ValidItem, ValidList, IndexOf;
    var i := IndexOf(l.items, l.items[k].id);
    assert i.Some?;
    IdsAreUnique(l, i.value, k);
  }

  /** What an alert does to a task in the list. */
  lemma RemindedAt(l: List, k: nat, now: int64)
    requires ValidList(l) && k < |l.items| && TIME_MIN <= now <= TIME_MAX && l.revision < UINT32_MAX
    ensures Reminded(l, l.items[k].id, now) ==
      if RemindFails(l.items[k], now) then (InvalidState, l)
      else (Success, List(l.revision + 1, l.nextId, l.items[k := Advanced(l.items[k], now)]))
  {
    hide ValidItem, IndexOf, RemindFails, Advanced;
    IndexIsUnique(l, k);
  }

  /** A recurring task alerted at `t1` and again at `t2` ends up as if only alerted at `t2`. */
  lemma RemindersDoNotDrift(l: List, k: nat, t1: int64, t2: int64)
    requires ValidList(l) && k < |l.items| && l.items[k].repeat != 0 && l.revision + 2 <= UINT32_MAX
    requires TIME_MIN <= t1 <= t2 <= TIME_MAX
    requires Reminded(l, l.items[k].id, t1).0 == Success && Reminded(l, l.items[k].id, t2).0 == Success
    ensures
      var id := l.items[k].id;
      Reminded(Reminded(l, id, t1).1, id, t2).1.items == Reminded(l, id, t2).1.items
  {
    hide ValidItem, ValidList, IndexOf, NextDue, Reminded;
    var a := l.items[k];
    RemindedAt(l, k, t1);
    RemindedAt(l, k, t2);
    TodoLaws.RemindKeepsValid(l, a.id, t1);
    AlertsDoNotDrift(a, t1, t2);
    RemindedAt(Reminded(l, a.id, t1).1, k, t2);
  }

  /** Alerts are refused for an invalid list, outside the clock's range, at the last revision, or for no item. */
  lemma RemindRefuses(l: List, id: uint32, now: int64)
    ensures
      var usable := ValidList(l) && TIME_MIN <= now <= TIME_MAX && l.revision < UINT32_MAX;
      && (!usable ==> Reminded(l, id, now) == (InvalidArg, l))
      && (usable && (forall i :: 0 <= i < |l.items| ==> l.items[i].id != id) ==> Reminded(l, id, now) == (NotFound, l))
  {
    hide ValidList;
  }

  lemma DueIsPositive(l: List, k: nat)
    requires ValidList(l) && k < |l.items|
    ensures l.items[k].due >= 0
  {
    hide Utf8.IsTitle;
    assert ValidItem(l.items[k]);
  }

  /**
   * An alert succeeds for an open item that is due and either does not recur or has a later due time in
   * range. The first loses its due time, the second moves to the least later instant in step with it; no
   * other item changes. `t` is any instant, so that both halves speak of all of them.
   */
  lemma RemindAnswers(l: List, k: nat, now: int64, t: int)
    requires ValidList(l) && k < |l.items| && TIME_MIN <= now <= TIME_MAX && l.revision < UINT32_MAX
    ensures
      var a := l.items[k];
      var (status, after) := Reminded(l, a.id, now);
      var overdue := !a.completed && 0 < a.due <= now;
      && (status == Success || (status == InvalidState && after == l))
      && (status == Success ==> overdue && after.nextId == l.nextId)
      && (overdue && a.repeat == 0 ==> status == Success && after.items == l.items[k := a.(due := 0)])
      && (overdue && a.repeat != 0 && now < t <= TIME_MAX && (t - a.due) % a.repeat == 0 ==> status == Success)
      && (status == Success && a.repeat != 0 ==>
            var next := after.items[k].due;
            && after.items == l.items[k := a.(due := next)]
            && now < next <= TIME_MAX && (next - a.due) % a.repeat == 0
            && (now < t && (t - a.due) % a.repeat == 0 ==> next <= t))
  {
    var a := l.items[k];
    RemindedAt(l, k, now);
    DueIsPositive(l, k);
    hide ValidList, ValidItem, Reminded, NextDue;
    if a.repeat != 0 && a.due <= now {
      NextDueIsLeast(a, now, t);
    }
  }

  // ---------------------------------------------------------------- draining

  /** The overdue items, each as often as it occurs. */
  function OverdueBag(items: seq<Item>, now: int64): multiset<Item>
  {
    if items == [] then multiset{}
    else
      var last := |items| - 1;
      OverdueBag(items[..last], now) + if Overdue(items[last], now) then multiset{items[last]} else multiset{}
  }

  lemma {:induction false} OverdueMembers(items: seq<Item>, now: int64)
    ensures forall x :: x in OverdueBag(items, now) <==> x in items && Overdue(x, now)
    decreases |items|
  {
    hide Overdue;
    if items != [] {
      var last := |items| - 1;
      OverdueMembers(items[..last], now);
      assert items == items[..last] + [items[last]];
    }
  }

  /** The item reported due is overdue, no overdue item is due before it, and it is the first of its time. */
  lemma {:induction false} DueIsEarliest(items: seq<Item>, now: int64)
    ensures DueIndex(items, now).None? ==> forall x :: x in items ==> !Overdue(x, now)
    ensures DueIndex(items, now).Some? ==>
      forall x :: x in items && Overdue(x, now) ==> items[DueIndex(items, now).value].due <= x.due
    ensures DueIndex(items, now).Some? ==>
      var k := DueIndex(items, now).value;
      forall j :: 0 <= j < k && Overdue(items[j], now) ==> items[k].due < items[j].due
    decreases |items|
  {
    hide Overdue;
    if items != [] {
      var last := |items| - 1;
      DueIsEarliest(items[..last], now);
      assert items == items[..last] + [items[last]];
    }
  }

  /** Open, with a due time, and that time has come. */
  predicate HasCome(a: Item, now: int64)
  {
    !a.completed && 0 < a.due <= now
  }

  /** The id asked for is that of the first of the earliest items whose time has come, or 0 if there is none. */
  lemma DueAnswers(l: List, now: int64)
    ensures !(ValidList(l) && TIME_MIN <= now <= TIME_MAX) ==> DueId(l, now) == 0
    ensures ValidList(l) && TIME_MIN <= now <= TIME_MAX ==>
      (DueId(l, now) == 0 <==> forall i :: 0 <= i < |l.items| ==> !HasCome(l.items[i], now))
    ensures DueId(l, now) != 0 ==>
      exists k :: 0 <= k < |l.items| && l.items[k].id == DueId(l, now) && HasCome(l.items[k], now)
        && (forall j :: 0 <= j < |l.items| && HasCome(l.items[j], now) ==> l.items[k].due <= l.items[j].due)
        && (forall j :: 0 <= j < k && HasCome(l.items[j], now) ==> l.items[k].due < l.items[j].due)
  {
    if ValidList(l) {
      forall i | 0 <= i < |l.items|
        ensures HasCome(l.items[i], now) <==> Overdue(l.items[i], now)
        ensures l.items[i].id != 0 && l.items[i] in l.items
      {
        DueIsPositive(l, i);
      }
      hide ValidList, HasCome, Overdue, DueIndex;
      DueIsEarliest(l.items, now);
    }
  }

  lemma OverdueSnoc(items: seq<Item>, y: Item, now: int64)
    ensures OverdueBag(items + [y], now)
         == OverdueBag(items, now) + if Overdue(y, now) then multiset{y} else multiset{}
  {
    assert (items + [y])[..|items|] == items;
  }

  /** Replacing an overdue item by one that is not takes exactly it out of the overdue ones. */
  lemma {:induction false} OverdueReplaced(items: seq<Item>, k: nat, x: Item, now: int64)
    requires k < |items| && Overdue(items[k], now) && !Overdue(x, now)
    ensures
      OverdueBag(items[k := x], now) + multiset{items[k]} == OverdueBag(items, now)
    decreases |items|
  {
    hide Overdue, OverdueBag;
    var last := |items| - 1;
    var front, y := items[..last], items[last];
    assert items == front + [y];
    OverdueSnoc(front, y, now);
    if k == last {
      assert items[k := x] == front + [x];
      OverdueSnoc(front, x, now);
    } else {
      assert items[k := x] == front[k := x] + [y];
      OverdueSnoc(front[k := x], y, now);
      OverdueReplaced(front, k, x, now);
    }
  }

  lemma AdvancedIsNotOverdue(a: Item, now: int64)
    requires !RemindFails(a, now)
    ensures !Overdue(Advanced(a, now), now)
  {
    if a.repeat != 0 {
      NextDueFits(a, now);
    }
  }

  /** The item whose alert comes next. */
  ghost function DueItem(l: List, now: int64): Item
    requires DueId(l, now) != 0
  {
    l.items[DueIndex(l.items, now).value]
  }

  /** One alert: it succeeds unless the next due time is out of range. */
  lemma DrainStep(l: List, now: int64)
    requires DueId(l, now) != 0 && l.revision < UINT32_MAX
    ensures
      var k := DueIndex(l.items, now).value;
      var (status, next) := Reminded(l, DueId(l, now), now);
      && ValidList(next) && DueItem(l, now) == l.items[k] && Overdue(l.items[k], now)
      && (status == Success <==> !RemindFails(l.items[k], now))
      && (status != Success ==> next == l)
      && (status == Success ==>
            next == List(l.revision + 1, l.nextId, l.items[k := Advanced(l.items[k], now)])
            && OverdueBag(next.items, now) + multiset{l.items[k]} == OverdueBag(l.items, now)
            && |OverdueBag(next.items, now)| + 1 == |OverdueBag(l.items, now)|)
  {
    hide ValidItem, ValidList, NextDue, OverdueBag, RemindFails, Advanced, Reminded, Overdue;
    var k := DueIndex(l.items, now).value;
    RemindedAt(l, k, now);
    TodoLaws.RemindKeepsValid(l, l.items[k].id, now);
    if !RemindFails(l.items[k], now) {
      AdvancedIsNotOverdue(l.items[k], now);
      OverdueReplaced(l.items, k, Advanced(l.items[k], now), now);
      var next := l.items[k := Advanced(l.items[k], now)];
      assert |OverdueBag(next, now) + multiset{l.items[k]}| == |OverdueBag(l.items, now)|;
    }
  }

  /**
   * The alerts and the final list of asking for the due task and alerting it, over and over, at
   * one instant; a failed alert is repeated for ever, so the sequence stops there.
   */
  ghost function Drain(l: List, now: int64): (seq<Item>, List)
    decreases |OverdueBag(l.items, now)|
  {
    if DueId(l, now) == 0 || l.revision == UINT32_MAX then ([], l)
    else
      var (status, next) := Reminded(l, DueId(l, now), now);
      if status != Success then ([], l)
      else
        DrainStep(l, now);
        var (alerts, final) := Drain(next, now);
        ([DueItem(l, now)] + alerts, final)
  }

  predicate AlertsSucceed(items: seq<Item>, now: int64)
  {
    forall i :: 0 <= i < |items| && Overdue(items[i], now) ==> !RemindFails(items[i], now)
  }

  predicate SortedByDue(alerts: seq<Item>)
  {
    forall i, j :: 0 <= i < j < |alerts| ==> alerts[i].due <= alerts[j].due
  }

  function AllAdvanced(items: seq<Item>, now: int64): (r: seq<Item>)
    requires AlertsSucceed(items, now)
    ensures |r| == |items|
    ensures forall i :: 0 <= i < |r| ==>
      r[i] == if Overdue(items[i], now) then Advanced(items[i], now) else items[i]
  {
    seq(|items|, i requires 0 <= i < |items| =>
        if Overdue(items[i], now) then Advanced(items[i], now) else items[i])
  }

  lemma DueItemIsOverdue(l: List, now: int64)
    requires DueId(l, now) != 0
    ensures DueIndex(l.items, now).Some? && |OverdueBag(l.items, now)| > 0
  {
    OverdueMembers(l.items, now);
    assert DueItem(l, now) in OverdueBag(l.items, now);
  }

  lemma NoneAdvanced(items: seq<Item>, now: int64)
    requires forall i :: 0 <= i < |items| ==> !Overdue(items[i], now)
    ensures AlertsSucceed(items, now) && AllAdvanced(items, now) == items
  {
    hide Overdue;
  }

  /** Advancing one overdue item first makes no difference to advancing them all. */
  lemma AdvanceOne(items: seq<Item>, k: nat, now: int64)
    requires k < |items| && AlertsSucceed(items, now) && Overdue(items[k], now)
    ensures !RemindFails(items[k], now)
    ensures
      var next := items[k := Advanced(items[k], now)];
      AlertsSucceed(next, now) && AllAdvanced(next, now) == AllAdvanced(items, now)
  {
    hide NextDue, RemindFails, Advanced, Overdue;
    AdvancedIsNotOverdue(items[k], now);
  }

  lemma NothingOverdue(l: List, now: int64)
    requires ValidList(l) && TIME_MIN <= now <= TIME_MAX && DueId(l, now) == 0
    ensures DueIndex(l.items, now).None? && OverdueBag(l.items, now) == multiset{}
    ensures forall i :: 0 <= i < |l.items| ==> !Overdue(l.items[i], now)
  {
    hide ValidItem, OverdueBag, Overdue;
    DueIsEarliest(l.items, now);
    OverdueMembers(l.items, now);
  }

  lemma EarliestComesFirst(l: List, now: int64, alerts: seq<Item>)
    requires DueId(l, now) != 0 && SortedByDue(alerts)
    requires multiset(alerts) + multiset{DueItem(l, now)} == OverdueBag(l.items, now)
    ensures SortedByDue([DueItem(l, now)] + alerts)
  {
    hide ValidItem, ValidList, OverdueBag, Overdue;
    DueIsEarliest(l.items, now);
    OverdueMembers(l.items, now);
    forall j | 0 <= j < |alerts|
      ensures DueItem(l, now).due <= alerts[j].due
    {
      assert alerts[j] in multiset(alerts);
    }
  }

  /**
   * Draining alerts every overdue task exactly once, in order of due time, advances each of
   * them and no other task, and leaves nothing due.
   */
  lemma {:induction false} DrainAlertsEachOnce(l: List, now: int64)
    requires ValidList(l) && TIME_MIN <= now <= TIME_MAX && AlertsSucceed(l.items, now)
    requires l.revision + |OverdueBag(l.items, now)| <= UINT32_MAX
    ensures
      var (alerts, final) := Drain(l, now);
      && multiset(alerts) == OverdueBag(l.items, now) && SortedByDue(alerts)
      && DueId(final, now) == 0
      && final == List(l.revision + |alerts|, l.nextId, AllAdvanced(l.items, now))
    decreases |OverdueBag(l.items, now)|
  {
    hide ValidItem, ValidList, DueIndex, DueId, NextDue, OverdueBag, RemindFails, Advanced, Reminded,
         Overdue, AllAdvanced, AlertsSucceed;
    if DueId(l, now) == 0 {
      NothingOverdue(l, now);
      NoneAdvanced(l.items, now);
    } else {
      DueItemIsOverdue(l, now);
      DrainStep(l, now);
      var next := Reminded(l, DueId(l, now), now).1;
      AdvanceOne(l.items, DueIndex(l.items, now).value, now);
      DrainAlertsEachOnce(next, now);
      EarliestComesFirst(l, now, Drain(next, now).0);
    }
  }

  /** Far enough from the end of time every alert of a valid list succeeds. */
  lemma AlertsSucceedInTime(l: List, now: int64)
    requires ValidList(l) && now <= TIME_MAX - MAX_INTERVAL
    ensures AlertsSucceed(l.items, now)
  {
    hide NextDue, Utf8.IsTitle;
    forall i | 0 <= i < |l.items| && Overdue(l.items[i], now)
      ensures !RemindFails(l.items[i], now)
    {
      var a := l.items[i];
      assert ValidItem(a);
      if a.repeat != 0 {
        NextDueFits(a, now);
      }
    }
  }

  lemma {:induction false} StuckTaskStays(l: List, i: nat, now: int64)
    requires ValidList(l) && TIME_MIN <= now <= TIME_MAX
    requires l.revision + |OverdueBag(l.items, now)| <= UINT32_MAX
    requires i < |l.items| && Overdue(l.items[i], now) && RemindFails(l.items[i], now)
    ensures DueId(Drain(l, now).1, now) != 0
    decreases |OverdueBag(l.items, now)|
  {
    hide ValidItem, NextDue, OverdueBag, RemindFails, Advanced, Reminded, Overdue, ValidList, DueId, DueIndex;
    if DueId(l, now) == 0 {
      NothingOverdue(l, now);
    } else {
      DueItemIsOverdue(l, now);
      DrainStep(l, now);
      var next := Reminded(l, DueId(l, now), now).1;
      if next != l {
        StuckTaskStays(next, i, now);
      }
    }
  }

  /** Draining leaves nothing due exactly when no overdue task has its next due time out of range. */
  lemma DrainEndsIffAlertsSucceed(l: List, now: int64)
    requires ValidList(l) && TIME_MIN <= now <= TIME_MAX
    requires l.revision + |OverdueBag(l.items, now)| <= UINT32_MAX
    ensures DueId(Drain(l, now).1, now) == 0 <==> AlertsSucceed(l.items, now)
  {
    hide ValidItem, NextDue, OverdueBag, RemindFails, Reminded, Overdue, ValidList, Drain, DueId;
    if AlertsSucceed(l.items, now) {
      DrainAlertsEachOnce(l, now);
    } else {
      var i :| 0 <= i < |l.items| && Overdue(l.items[i], now) && RemindFails(l.items[i], now);
      StuckTaskStays(l, i, now);
    }
  }

  lemma LetterIsTitle()
    ensures Utf8.IsTitle(['a' as int], TITLE_BYTES)
  {
    assert Utf8.EncodeAll([97][1..]) == [];
    assert Utf8.Spells([97], [97]) && 97 in [97];
  }

  /** A task that recurs every minute, added so that it is first due at the last supported instant. */
  ghost function LastInstant(): List
  {
    TodoLaws.Run(EMPTY, [TodoLaws.Change(Action(Add, 0, [], ['a' as int], 0, 60), TIME_MAX - 60)])
  }

  lemma LastInstantList()
    ensures LastInstant() == List(1, 2, [Item(1, false, ['a' as int], TIME_MAX, 60)]) && ValidList(LastInstant())
  {
    var op := TodoLaws.Change(Action(Add, 0, [], ['a' as int], 0, 60), TIME_MAX - 60);
    LetterIsTitle();
    hide Utf8.IsTitle;
    assert [op][1..] == [];
    assert TodoLaws.Run(TodoLaws.Perform(EMPTY, op).1, []) == TodoLaws.Perform(EMPTY, op).1;
  }

  /** A run of one addition whose item is reported due for ever once its time has come. */
  lemma LastInstantSticks()
    ensures ValidList(LastInstant()) && DueId(Drain(LastInstant(), TIME_MAX).1, TIME_MAX) != 0
  {
    LastInstantList();
    var l := LastInstant();
    hide LastInstant, Utf8.IsTitle;
    assert RemindFails(l.items[0], TIME_MAX);
    assert l.items[..0] == [];
    assert OverdueBag(l.items, TIME_MAX) == multiset{l.items[0]};
    StuckTaskStays(l, 0, TIME_MAX);
  }
}
