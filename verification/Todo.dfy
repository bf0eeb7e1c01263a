/** The bounded TODO list and its in-place operations, as in components/smart_todo/smart_todo.c. */
module Todo {
  import opened Bytes
  import opened Utf8

  const CAPACITY := 12
  const TITLE_BYTES := 97
  const MAX_INTERVAL := 31622400 // 366 days
  const TIME_MIN := 1704067200
  const TIME_MAX := 4102444800
  const UINT32_MAX := 0xffff_ffff

  /** What a `char[97]` shows: the bytes before the first zero, or all 97. */
  type Title = s: seq<byte> | |s| <= 97 && 0 !in s

  datatype Item = Item(id: uint32, completed: bool, title: Title, due: int64, repeat: uint32)

  datatype List = List(revision: uint32, nextId: uint32, items: seq<Item>)

  datatype Kind = Add | Complete | Delete | Noop | OtherKind

  datatype Action = Action(kind: Kind, id: uint32, ids: seq<uint32>, title: Title,
                           delay: uint32, repeat: uint32)

  datatype Status = Success | InvalidArg | NotFound | InvalidState | NoMem

  const ZERO_ITEM := Item(0, false, [], 0, 0)

  const EMPTY := List(0, 1, [])

  // ---------------------------------------------------------------- what the operations mean

  ghost predicate ValidItem(a: Item)
  {
    && IsTitle(a.title, TITLE_BYTES)
    && a.repeat <= MAX_INTERVAL && (a.repeat != 0 ==> a.repeat >= 60)
    && (a.due != 0 ==> TIME_MIN <= a.due <= TIME_MAX)
    && (a.completed ==> a.due == 0 && a.repeat == 0)
    && (a.repeat != 0 ==> a.due != 0)
  }

  ghost predicate ValidList(l: List)
  {
    && |l.items| <= CAPACITY && l.nextId != 0
    && (forall i :: 0 <= i < |l.items| ==> 0 < l.items[i].id < l.nextId && ValidItem(l.items[i]))
    && (forall i, j :: 0 <= i < j < |l.items| ==> l.items[i].id != l.items[j].id)
  }

  predicate IdsValid(a: Action)
  {
    !(a.id != 0 && a.ids != []) && |a.ids| <= CAPACITY &&
    if a.id != 0 then a.id < UINT32_MAX
    else a.ids != [] && forall i :: 0 <= i < |a.ids| ==> 0 < a.ids[i] < UINT32_MAX
  }

  predicate Requests(a: Action, id: uint32)
  {
    if a.ids == [] then a.id == id else id in a.ids
  }

  predicate ToComplete(a: Action, item: Item)
  {
    Requests(a, item.id) && !item.completed
  }

  function CompletedItem(a: Action, item: Item): Item
  {
    if ToComplete(a, item) then item.(completed := true, due := 0, repeat := 0) else item
  }

  function CompletedItems(a: Action, items: seq<Item>): (r: seq<Item>)
    ensures |r| == |items| && forall i :: 0 <= i < |r| ==> r[i] == CompletedItem(a, items[i])
  {
    seq(|items|, i requires 0 <= i < |items| => CompletedItem(a, items[i]))
  }

  /** The items not requested, in order. */
  function Kept(a: Action, items: seq<Item>): (r: seq<Item>)
    ensures |r| <= |items|
  {
    if items == [] then []
    else
      var last := |items| - 1;
      Kept(a, items[..last]) + if Requests(a, items[last].id) then [] else [items[last]]
  }

  function Renumbered(items: seq<Item>): (r: seq<Item>)
    requires |items| <= CAPACITY
    ensures |r| == |items| && forall i :: 0 <= i < |r| ==> r[i] == items[i].(id := i + 1)
  {
    seq(|items|, i requires 0 <= i < |items| => items[i].(id := i + 1))
  }

  ghost predicate AddFieldsValid(a: Action)
  {
    && a.id == 0 && a.ids == [] && IsTitle(a.title, TITLE_BYTES)
    && a.delay <= MAX_INTERVAL && a.repeat <= MAX_INTERVAL && (a.repeat != 0 ==> a.repeat >= 60)
  }

  function FirstDelay(a: Action): uint32
  {
    if a.delay != 0 then a.delay else a.repeat
  }

  ghost function Added(l: List, a: Action, now: int64): (Status, List)
    requires ValidList(l) && l.revision < UINT32_MAX
  {
    if |l.items| == CAPACITY || l.nextId == UINT32_MAX then (NoMem, l)
    else if !AddFieldsValid(a) then (InvalidArg, l)
    else if FirstDelay(a) != 0 && !(TIME_MIN <= now <= TIME_MAX - FirstDelay(a)) then (InvalidState, l)
    else
      var due := if FirstDelay(a) != 0 then now + FirstDelay(a) else 0;
      (Success, List(l.revision + 1, l.nextId + 1,
                     l.items + [Item(l.nextId, false, a.title, due, a.repeat)]))
  }

  predicate ChangeFieldsValid(a: Action)
  {
    (a.kind == Complete || a.kind == Delete) && a.delay == 0 && a.repeat == 0 && a.title == [] && IdsValid(a)
  }

  ghost function Applied(l: List, a: Action, now: int64): (r: (Status, List))
    ensures |l.items| <= CAPACITY ==> |r.1.items| <= CAPACITY
  {
    if !ValidList(l) then (InvalidArg, l)
    else if a.kind == Noop then (NotFound, l)
    else if l.revision == UINT32_MAX then (InvalidState, l)
    else if a.kind == Add then Added(l, a, now)
    else if !ChangeFieldsValid(a) then (InvalidArg, l)
    else if a.kind == Complete then
      if exists i :: 0 <= i < |l.items| && ToComplete(a, l.items[i])
      then (Success, List(l.revision + 1, l.nextId, CompletedItems(a, l.items)))
      else (NotFound, l)
    else
      var kept := Kept(a, l.items);
      if |kept| == |l.items| then (NotFound, l)
      else (Success, List(l.revision + 1, |kept| + 1, Renumbered(kept)))
  }

  predicate Overdue(a: Item, now: int64)
  {
    !a.completed && a.due != 0 && a.due <= now
  }

  /** The first of the earliest overdue items. */
  function DueIndex(items: seq<Item>, now: int64): (r: Option<nat>)
    ensures r.Some? ==> r.value < |items| && Overdue(items[r.value], now)
  {
    if items == [] then None
    else
      var last := |items| - 1;
      var before := DueIndex(items[..last], now);
      if Overdue(items[last], now) && (before.None? || items[last].due < items[before.value].due)
      then Some(last) else before
  }

  ghost function DueId(l: List, now: int64): uint32
  {
    if !ValidList(l) || now < TIME_MIN || now > TIME_MAX || DueIndex(l.items, now).None? then 0
    else l.items[DueIndex(l.items, now).value].id
  }

  /** The due time after an alert at `now`. */
  function NextDue(a: Item, now: int64): int
    requires a.repeat != 0 && a.due <= now
  {
    a.due + ((now - a.due) / a.repeat + 1) * a.repeat
  }

  predicate RemindFails(a: Item, now: int64)
  {
    !Overdue(a, now) || (a.repeat != 0 && NextDue(a, now) > TIME_MAX)
  }

  lemma NextDueFits(a: Item, now: int64)
    requires a.repeat != 0 && a.due <= now
    ensures now < NextDue(a, now) <= now + a.repeat
  {
    var gap, r := now - a.due, a.repeat;
    assert gap == gap / r * r + gap % r;
    assert (gap / r + 1) * r == gap / r * r + r;
  }

  function Advanced(a: Item, now: int64): Item
    requires !RemindFails(a, now)
  {
    if a.repeat != 0 then
      NextDueFits(a, now);
      a.(due := NextDue(a, now))
    else a.(due := 0)
  }

  function IndexOf(items: seq<Item>, id: uint32): (r: Option<nat>)
    ensures r.Some? ==> r.value < |items| && items[r.value].id == id
    ensures r.Some? ==> forall i :: 0 <= i < r.value ==> items[i].id != id
    ensures r.None? ==> forall i :: 0 <= i < |items| ==> items[i].id != id
  {
    if items == [] then None
    else
      var last := |items| - 1;
      var before := IndexOf(items[..last], id);
      if before.Some? then before else if items[last].id == id then Some(last) else None
  }

  ghost function Reminded(l: List, id: uint32, now: int64): (r: (Status, List))
    ensures |l.items| <= CAPACITY ==> |r.1.items| <= CAPACITY
  {
    if !ValidList(l) || now < TIME_MIN || now > TIME_MAX || l.revision == UINT32_MAX then (InvalidArg, l)
    else
      match IndexOf(l.items, id)
      case None => (NotFound, l)
      case Some(i) =>
        if RemindFails(l.items[i], now) then (InvalidState, l)
        else (Success, List(l.revision + 1, l.nextId, l.items[i := Advanced(l.items[i], now)]))
  }

  // ---------------------------------------------------------------- the list in memory

  method IdsAreValid(a: Action) returns (ok: bool)
    ensures ok == IdsValid(a)
  {
    if a.id != 0 && |a.ids| != 0 {
      return false;
    }
    if |a.ids| > CAPACITY {
      return false;
    }
    if a.id != 0 {
      return a.id < UINT32_MAX;
    }
    if |a.ids| == 0 {
      return false;
    }
    for i := 0 to |a.ids|
      invariant forall k :: 0 <= k < i ==> 0 < a.ids[k] < UINT32_MAX
    {
      if a.ids[i] == 0 || a.ids[i] == UINT32_MAX {
        return false;
      }
    }
    return true;
  }

  method RequestsId(a: Action, id: uint32) returns (found: bool)
    ensures found <==> if a.ids == [] then id == a.id else id in a.ids
  {
    if |a.ids| == 0 {
      return a.id == id;
    }
    for i := 0 to |a.ids|
      invariant forall k :: 0 <= k < i ==> a.ids[k] != id
    {
      if a.ids[i] == id {
        return true;
      }
    }
    return false;
  }

  lemma UnchangedItems(a: Action, items: seq<Item>)
    requires !exists i :: 0 <= i < |items| && ToComplete(a, items[i])
    ensures CompletedItems(a, items) == items
  {
    forall i | 0 <= i < |items|
      ensures CompletedItem(a, items[i]) == items[i]
    {
      assert !ToComplete(a, items[i]);
    }
  }

  lemma {:induction false} IndexOfPrefix(items: seq<Item>, i: nat, id: uint32)
    requires i < |items| && IndexOf(items[..i], id).None? && items[i].id == id
    ensures IndexOf(items, id) == Some(i)
    decreases |items|
  {
    var last := |items| - 1;
    if i < last {
      assert items[..last][..i] == items[..i];
      IndexOfPrefix(items[..last], i, id);
    }
  }

  class TodoList {
    var revision: uint32
    var nextId: uint32
    var count: byte
    const items: array<Item>

    ghost predicate Shaped()
      reads this
    {
      items.Length == CAPACITY
    }

    /** The list's value: the items in use. */
    ghost function Value(): (l: List)
      requires Shaped()
      reads this, items
      ensures count <= CAPACITY ==> |l.items| == count
    {
      List(revision, nextId, items[..if count <= CAPACITY then count else CAPACITY])
    }

    /** Slots past the last item hold zeros. */
    ghost predicate Tidy()
      requires Shaped()
      reads this, items
    {
      forall i :: count <= i < CAPACITY ==> items[i] == ZERO_ITEM
    }

    constructor ()
      ensures Shaped() && fresh(items)
      ensures count == 0 && Value() == EMPTY && Tidy()
    {
      revision, nextId, count := 0, 1, 0;
      items := new Item[CAPACITY](_ => ZERO_ITEM);
    }

    /** Structure assignment. */
    method CopyFrom(other: TodoList)
      requires Shaped() && other.Shaped() && other.items != items
      modifies this, items
      ensures Shaped() && count == other.count && Value() == other.Value()
    {
      revision, nextId, count := other.revision, other.nextId, other.count;
      forall k | 0 <= k < CAPACITY {
        items[k] := other.items[k];
      }
      assert items[..] == other.items[..];
    }

    method Valid() returns (ok: bool)
      requires Shaped()
      ensures ok <==> count <= CAPACITY && ValidList(Value())
    {
      hide IsTitle;
      if count > CAPACITY || nextId == 0 {
        return false;
      }
      for i := 0 to count
        invariant forall k :: 0 <= k < i ==> 0 < items[k].id < nextId && ValidItem(items[k])
        invariant forall j, k :: 0 <= j < k < i ==> items[j].id != items[k].id
      {
        var a := items[i];
        assert a == Value().items[i];
        var named := TextValid(a.title, TITLE_BYTES);
        if a.id == 0 || a.id >= nextId || !named || a.repeat > MAX_INTERVAL
           || (a.repeat != 0 && a.repeat < 60)
           || (a.due != 0 && (a.due < TIME_MIN || a.due > TIME_MAX))
           || (a.completed && (a.due != 0 || a.repeat != 0))
           || (a.repeat != 0 && a.due == 0) {
          return false;
        }
        for j := 0 to i
          invariant forall k :: 0 <= k < j ==> items[k].id != a.id
        {
          if a.id == items[j].id {
            assert Value().items[j].id == Value().items[i].id;
            return false;
          }
        }
      }
      return true;
    }

    /** The ADD branch, on a list already found valid and with a revision left. */
    method ApplyAdd(a: Action, now: int64) returns (status: Status)
      requires Shaped() && count <= CAPACITY && ValidList(Value()) && revision < UINT32_MAX
      modifies this, items
      ensures Shaped() && count <= CAPACITY
      ensures (status, Value()) == Added(old(Value()), a, now)
      ensures old(Tidy()) ==> Tidy()
    {
      hide IsTitle, ValidList;
      if count == CAPACITY || nextId == UINT32_MAX {
        return NoMem;
      }
      var named := TextValid(a.title, TITLE_BYTES);
      if a.id != 0 || |a.ids| != 0 || !named || a.delay > MAX_INTERVAL || a.repeat > MAX_INTERVAL
         || (a.repeat != 0 && a.repeat < 60) {
        return InvalidArg;
      }
      var delay := if a.delay != 0 then a.delay else a.repeat;
      if delay != 0 && (now < TIME_MIN || now > TIME_MAX - delay) {
        return InvalidState;
      }
      ghost var before := items[..count];
      var index := count;
      count := count + 1;
      items[index] := Item(nextId, false, a.title, if delay != 0 then now + delay else 0, a.repeat);
      nextId := nextId + 1;
      revision := revision + 1;
      assert items[..count] == before + [items[index]];
      return Success;
    }

    /** The COMPLETE branch: each requested open item is closed where it stands. */
    method ApplyComplete(a: Action) returns (changed: bool)
      requires Shaped() && count <= CAPACITY && IdsValid(a)
      modifies items
      ensures items[..count] == CompletedItems(a, old(items[..count]))
      ensures forall k :: count <= k < CAPACITY ==> items[k] == old(items[k])
      ensures changed <==> exists i :: 0 <= i < count && ToComplete(a, old(items[..count])[i])
    {
      changed := false;
      ghost var before := items[..count];
      for i := 0 to count
        invariant forall k :: 0 <= k < i ==> items[k] == CompletedItem(a, before[k])
        invariant forall k :: i <= k < CAPACITY ==> items[k] == old(items[k])
        invariant changed <==> exists k :: 0 <= k < i && ToComplete(a, before[k])
      {
        var requested := RequestsId(a, items[i].id);
        if requested && !items[i].completed {
          items[i] := items[i].(completed := true, due := 0, repeat := 0);
          changed := true;
          assert ToComplete(a, before[i]);
        }
      }
    }

    /** The DELETE branch's first loop: kept items slide down over deleted ones. */
    method Compact(a: Action) returns (write: byte)
      requires Shaped() && count <= CAPACITY
      modifies items
      ensures write <= count && items[..write] == Kept(a, old(items[..count]))
      ensures forall k :: count <= k < CAPACITY ==> items[k] == old(items[k])
      ensures write == count ==> items[..] == old(items[..])
    {
      write := 0;
      ghost var before := items[..count];
      for read := 0 to count
        invariant write <= read && items[..write] == Kept(a, before[..read])
        invariant forall k :: read <= k < CAPACITY ==> items[k] == old(items[k])
        invariant write == read ==> forall k :: 0 <= k < CAPACITY ==> items[k] == old(items[k])
      {
        assert before[..read + 1][..read] == before[..read];
        assert before[..read + 1][read] == items[read];
        var requested := RequestsId(a, items[read].id);
        if !requested {
          if write != read {
            items[write] := items[read];
          }
          assert items[..write + 1] == items[..write] + [before[read]];
          write := write + 1;
        }
      }
      assert before[..count] == before;
    }

    method ClearSlots(from: nat, to: nat)
      requires Shaped() && from <= to <= CAPACITY
      modifies items
      ensures forall i :: 0 <= i < from || to <= i < CAPACITY ==> items[i] == old(items[i])
      ensures forall i :: from <= i < to ==> items[i] == ZERO_ITEM
    {
      for k := from to to
        invariant forall i :: 0 <= i < from || to <= i < CAPACITY ==> items[i] == old(items[i])
        invariant forall j :: from <= j < k ==> items[j] == ZERO_ITEM
      {
        items[k] := ZERO_ITEM;
      }
    }

    method NumberItems()
      requires Shaped() && count <= CAPACITY
      modifies items
      ensures items[..count] == Renumbered(old(items[..count]))
      ensures forall k :: count <= k < CAPACITY ==> items[k] == old(items[k])
    {
      for j := 0 to count
        invariant forall k :: 0 <= k < j ==> items[k] == old(items[..])[k].(id := k + 1)
        invariant forall k :: j <= k < CAPACITY ==> items[k] == old(items[..])[k]
      {
        items[j] := items[j].(id := j + 1);
      }
    }

    /** The DELETE branch: compact, clear what is left over, number from 1. */
    method ApplyDelete(a: Action) returns (deleted: bool)
      requires Shaped() && count <= CAPACITY
      modifies this, items
      ensures Shaped() && count <= CAPACITY && revision == old(revision)
      ensures deleted <==> |Kept(a, old(items[..count]))| != old(count)
      ensures !deleted ==> count == old(count) && nextId == old(nextId) && items[..] == old(items[..])
      ensures deleted ==>
        var kept := Kept(a, old(items[..count]));
        count == |kept| && nextId == |kept| + 1 && items[..count] == Renumbered(kept)
      ensures old(Tidy()) ==> Tidy()
    {
      var write := Compact(a);
      if write == count {
        return false;
      }
      ClearSlots(write, count);
      count := write;
      NumberItems();
      nextId := count + 1;
      return true;
    }

    /** `smart_todo_apply`. */
    method Apply(a: Action, now: int64) returns (status: Status)
      requires Shaped()
      modifies this, items
      ensures Shaped()
      ensures old(count) > CAPACITY ==> status == InvalidArg && unchanged(this) && unchanged(items)
      ensures old(count) <= CAPACITY ==>
        count <= CAPACITY && (status, Value()) == Applied(old(Value()), a, now)
      ensures old(count <= CAPACITY && Tidy()) ==> Tidy()
    {
      hide ValidItem;
      var valid := Valid();
      if !valid {
        return InvalidArg;
      }
      if a.kind == Noop {
        return NotFound;
      }
      if revision == UINT32_MAX {
        return InvalidState;
      }
      if a.kind == Add {
        status := ApplyAdd(a, now);
        return;
      }
      if (a.kind != Complete && a.kind != Delete) || a.delay != 0 || a.repeat != 0 || |a.title| != 0 {
        return InvalidArg;
      }
      var idsValid := IdsAreValid(a);
      if !idsValid {
        return InvalidArg;
      }
      if a.kind == Complete {
        var changed := ApplyComplete(a);
        if !changed {
          UnchangedItems(a, old(items[..count]));
          return NotFound;
        }
      } else {
        var deleted := ApplyDelete(a);
        if !deleted {
          return NotFound;
        }
      }
      revision := revision + 1;
      return Success;
    }

    /** `smart_todo_due`: the scan keeps the first of the earliest overdue items. */
    method Due(now: int64) returns (id: uint32)
      requires Shaped()
      ensures id == if count <= CAPACITY then DueId(Value(), now) else 0
    {
      hide ValidItem;
      var valid := Valid();
      if !valid || now < TIME_MIN || now > TIME_MAX {
        return 0;
      }
      var first: Option<nat> := None;
      ghost var l := Value();
      for i := 0 to count
        invariant first == DueIndex(l.items[..i], now)
      {
        var a := items[i];
        assert l.items[..i + 1][..i] == l.items[..i];
        if !a.completed && a.due != 0 && a.due <= now && (first.None? || a.due < items[first.value].due) {
          first := Some(i);
        }
      }
      assert l.items[..count] == l.items;
      return if first.Some? then items[first.value].id else 0;
    }

    /** The found item's alert: it is moved past `now`, or put off for good when it does not recur. */
    method AdvanceAt(i: byte, now: int64) returns (status: Status)
      requires Shaped() && i < count <= CAPACITY && revision < UINT32_MAX
      modifies this`revision, items
      ensures
        var a := old(items[i]);
        if RemindFails(a, now) then status == InvalidState && revision == old(revision) && items[..] == old(items[..])
        else status == Success && revision == old(revision) + 1 && items[..] == old(items[..])[i := Advanced(a, now)]
    {
      var a := items[i];
      if a.completed || a.due == 0 || a.due > now {
        return InvalidState;
      }
      if a.repeat != 0 {
        var steps := (now - a.due) / a.repeat + 1;
        var next := a.due + steps * a.repeat;
        if next > TIME_MAX {
          return InvalidState;
        }
        NextDueFits(a, now);
        items[i] := a.(due := next);
      } else {
        items[i] := a.(due := 0);
      }
      revision := revision + 1;
      return Success;
    }

    /** `smart_todo_reminded`. */
    method Remind(id: uint32, now: int64) returns (status: Status)
      requires Shaped()
      modifies this, items
      ensures Shaped() && count == old(count)
      ensures old(count) > CAPACITY ==> status == InvalidArg && unchanged(this) && unchanged(items)
      ensures old(count) <= CAPACITY ==> (status, Value()) == Reminded(old(Value()), id, now)
      ensures old(count <= CAPACITY && Tidy()) ==> Tidy()
    {
      hide ValidItem, Advanced, RemindFails;
      var valid := Valid();
      if !valid || now < TIME_MIN || now > TIME_MAX || revision == UINT32_MAX {
        return InvalidArg;
      }
      ghost var l := Value();
      for i := 0 to count
        invariant IndexOf(l.items[..i], id).None?
        invariant Value() == l && revision == old(revision)
        invariant items[..] == old(items[..])
      {
        assert l.items[..i + 1][..i] == l.items[..i];
        if items[i].id == id {
          IndexOfPrefix(l.items, i, id);
          status := AdvanceAt(i, now);
          assert status == Success ==> items[..count] == l.items[i := Advanced(l.items[i], now)];
          return;
        }
      }
      assert l.items[..count] == l.items;
      return NotFound;
    }
  }
}
