/** Laws of the TODO list operations over whole runs, and of batch deletion. */
module TodoLaws {
  import opened Bytes
  import opened Todo

  // ---------------------------------------------------------------- every run

  datatype Op = Change(action: Action, at: int64) | Alert(id: uint32, at: int64)

  ghost function Perform(l: List, op: Op): (Status, List)
  {
    match op
    case Change(action, at) => Applied(l, action, at)
    case Alert(id, at) => Reminded(l, id, at)
  }

  /** Items are numbered 1, 2, 3, ... and the next number is the next one. */
  predicate Numbered(l: List)
  {
    l.nextId == |l.items| + 1 && forall i :: 0 <= i < |l.items| ==> l.items[i].id == i + 1
  }

  /** A failed operation changes nothing; a successful one raises the revision by one. */
  lemma RevisionCounts(l: List, op: Op)
    ensures
      var (status, after) := Perform(l, op);
      if status == Success then after.revision == l.revision + 1 else after == l
  {
    hide ValidList, ValidItem;
  }

  lemma AddKeepsValid(l: List, a: Action, now: int64)
    requires ValidList(l) && l.revision < UINT32_MAX
    ensures ValidList(Added(l, a, now).1)
    ensures Numbered(l) ==> Numbered(Added(l, a, now).1)
  {
    hide Utf8.IsTitle;
    var after := Added(l, a, now).1;
    if Added(l, a, now).0 == Success {
      var item := after.items[|l.items|];
      assert ValidItem(item);
      assert forall i :: 0 <= i < |l.items| ==> after.items[i] == l.items[i];
    }
  }

  lemma CompleteKeepsValid(l: List, a: Action)
    requires ValidList(l) && l.revision < UINT32_MAX
    ensures ValidList(List(l.revision + 1, l.nextId, CompletedItems(a, l.items)))
  {
    hide Utf8.IsTitle;
  }

  lemma {:induction false} KeptAreUnrequested(a: Action, items: seq<Item>)
    ensures forall x :: x in Kept(a, items) <==> x in items && !Requests(a, x.id)
    decreases |items|
  {
    hide Requests;
    if items != [] {
      var last := |items| - 1;
      KeptAreUnrequested(a, items[..last]);
      assert items == items[..last] + [items[last]];
    }
  }

  /** A deletion keeps exactly the items that the action does not name, in its list or by its single id. */
  lemma KeptAreItems(a: Action, items: seq<Item>)
    ensures a.ids != [] ==> forall x :: x in Kept(a, items) <==> x in items && x.id !in a.ids
    ensures a.ids == [] ==> forall x :: x in Kept(a, items) <==> x in items && x.id != a.id
  {
    hide Kept;
    KeptAreUnrequested(a, items);
  }

  lemma DeleteKeepsValid(l: List, a: Action)
    requires ValidList(l) && l.revision < UINT32_MAX
    ensures
      var kept := Kept(a, l.items);
      var after := List(l.revision + 1, |kept| + 1, Renumbered(kept));
      ValidList(after) && Numbered(after)
  {
    hide Utf8.IsTitle, Kept, Requests;
    var kept := Kept(a, l.items);
    KeptAreUnrequested(a, l.items);
    var r := Renumbered(kept);
    forall i | 0 <= i < |r|
      ensures 0 < r[i].id < |kept| + 1 && ValidItem(r[i])
    {
      assert kept[i] in kept;
    }
  }

  lemma RemindKeepsValid(l: List, id: uint32, now: int64)
    requires ValidList(l)
    ensures ValidList(Reminded(l, id, now).1)
    ensures Numbered(l) ==> Numbered(Reminded(l, id, now).1)
  {
    hide Utf8.IsTitle, NextDue;
    var (status, after) := Reminded(l, id, now);
    if status == Success {
      var i := IndexOf(l.items, id).value;
      var a := l.items[i];
      if a.repeat != 0 {
        NextDueFits(a, now);
      }
      assert ValidItem(Advanced(a, now));
      assert forall j :: 0 <= j < |l.items| ==> after.items[j].id == l.items[j].id;
    }
  }

  lemma StepKeepsValid(l: List, op: Op)
    requires ValidList(l)
    ensures ValidList(Perform(l, op).1)
    ensures Numbered(l) ==> Numbered(Perform(l, op).1)
  {
    hide ValidItem, Added, Kept;
    match op
    case Alert(id, at) =>
      RemindKeepsValid(l, id, at);
    case Change(a, at) =>
      hide ValidList;
      if l.revision < UINT32_MAX {
        AddKeepsValid(l, a, at);
        CompleteKeepsValid(l, a);
        DeleteKeepsValid(l, a);
      }
  }

  ghost function Run(l: List, ops: seq<Op>): List
    decreases |ops|
  {
    if ops == [] then l else Run(Perform(l, ops[0]).1, ops[1..])
  }

  ghost function Successes(l: List, ops: seq<Op>): nat
    decreases |ops|
  {
    if ops == [] then 0
    else (if Perform(l, ops[0]).0 == Success then 1 else 0) + Successes(Perform(l, ops[0]).1, ops[1..])
  }

  lemma {:induction false} RunKeepsValid(l: List, ops: seq<Op>)
    requires ValidList(l)
    ensures ValidList(Run(l, ops)) && Run(l, ops).revision == l.revision + Successes(l, ops)
    ensures Numbered(l) ==> Numbered(Run(l, ops))
    decreases |ops|
  {
    hide ValidList, Perform, Numbered;
    if ops != [] {
      StepKeepsValid(l, ops[0]);
      RevisionCounts(l, ops[0]);
      RunKeepsValid(Perform(l, ops[0]).1, ops[1..]);
    }
  }

  /** Every run from the initial list stays valid and numbered, and its revision counts its successes. */
  lemma EveryRunIsNumbered(ops: seq<Op>)
    ensures ValidList(Run(EMPTY, ops)) && Numbered(Run(EMPTY, ops))
    ensures Run(EMPTY, ops).revision == Successes(EMPTY, ops)
  {
    RunKeepsValid(EMPTY, ops);
  }

  // ---------------------------------------------------------------- batch deletion

  function DeleteOf(id: uint32): Action
  {
    Action(Delete, id, [], [], 0, 0)
  }

  /** The ids from `k` down to 1 that the action names, deleted one operation at a time. */
  ghost function DeleteEach(l: List, a: Action, k: nat, now: int64): List
    requires k < UINT32_MAX
    decreases k
  {
    if k == 0 then l
    else if (if a.ids == [] then k == a.id else k in a.ids)
    then DeleteEach(Applied(l, DeleteOf(k), now).1, a, k - 1, now)
    else DeleteEach(l, a, k - 1, now)
  }

  lemma {:induction false} KeptOfConcat(a: Action, s: seq<Item>, t: seq<Item>)
    ensures Kept(a, s + t) == Kept(a, s) + Kept(a, t)
    decreases |t|
  {
    hide Requests;
    if t == [] {
      assert s + t == s;
    } else {
      var last := |t| - 1;
      assert (s + t)[..|s| + last] == s + t[..last];
      KeptOfConcat(a, s, t[..last]);
    }
  }

  predicate NoneRequested(a: Action, s: seq<Item>)
  {
    forall i :: 0 <= i < |s| ==> !Requests(a, s[i].id)
  }

  lemma {:induction false} KeptAll(a: Action, s: seq<Item>)
    requires NoneRequested(a, s)
    ensures Kept(a, s) == s
    decreases |s|
  {
    hide Requests;
    if s != [] {
      KeptAll(a, s[..|s| - 1]);
    }
  }

  lemma KeptOne(a: Action, x: Item)
    ensures Kept(a, [x]) == if Requests(a, x.id) then [] else [x]
  {
    assert [x][..0] == [];
  }

  lemma KeptAround(a: Action, front: seq<Item>, x: Item, back: seq<Item>)
    requires Requests(a, x.id) && NoneRequested(a, front) && NoneRequested(a, back)
    ensures Kept(a, front + [x] + back) == front + back
  {
    hide Kept, Requests, NoneRequested;
    KeptAll(a, front);
    KeptAll(a, back);
    KeptOne(a, x);
    KeptOfConcat(a, front, [x]);
    KeptOfConcat(a, front + [x], back);
  }

  predicate Consecutive(items: seq<Item>)
  {
    |items| <= CAPACITY && forall i :: 0 <= i < |items| ==> items[i].id == i + 1
  }

  lemma OthersNotRequested(items: seq<Item>, k: uint32, front: seq<Item>, back: seq<Item>)
    requires Consecutive(items) && 0 < k <= |items|
    requires front == items[..k - 1] && back == items[k..]
    ensures NoneRequested(DeleteOf(k), front) && NoneRequested(DeleteOf(k), back)
    ensures Requests(DeleteOf(k), items[k - 1].id)
  {
  }

  lemma SplitAround(items: seq<Item>, k: nat)
    requires 0 < k <= |items|
    ensures items == items[..k - 1] + [items[k - 1]] + items[k..]
  {
  }

  /** Deleting id `k` from a numbered sequence takes out its `k`-th item. */
  lemma KeptWithoutOne(items: seq<Item>, k: uint32)
    requires Consecutive(items) && 0 < k <= |items|
    ensures Kept(DeleteOf(k), items) == items[..k - 1] + items[k..]
  {
    hide *;
    SplitAround(items, k);
    OthersNotRequested(items, k, items[..k - 1], items[k..]);
    KeptAround(DeleteOf(k), items[..k - 1], items[k - 1], items[k..]);
  }

  /** What a single deletion leaves of a numbered list. */
  lemma DeleteOne(l: List, k: nat, now: int64)
    requires ValidList(l) && Numbered(l) && 0 < k <= |l.items| && l.revision < UINT32_MAX
    ensures Applied(l, DeleteOf(k), now)
         == (Success, List(l.revision + 1, |l.items|, Renumbered(l.items[..k - 1] + l.items[k..])))
  {
    hide ValidItem, Kept;
    KeptWithoutOne(l.items, k);
  }

  /** Numbering forgets earlier numbers. */
  lemma RenumberedWithoutOne(items: seq<Item>, k: nat)
    requires 0 < k <= |items| <= CAPACITY
    ensures
      var r := Renumbered(items);
      Renumbered(r[..k - 1] + r[k..]) == Renumbered(items[..k - 1] + items[k..])
  {
  }

  lemma {:induction false} DeleteEachFrom(l: List, a: Action, base: seq<Item>, k: nat, now: int64)
    requires ValidList(l) && Numbered(l) && l.revision + k <= UINT32_MAX
    requires k <= |base| && Consecutive(base)
    requires
      var items := base[..k] + Kept(a, base[k..]);
      |items| <= CAPACITY && l.items == Renumbered(items)
    ensures DeleteEach(l, a, k, now).items == Renumbered(Kept(a, base))
    decreases k
  {
    hide ValidList, Kept, Renumbered, Applied;
    if k == 0 {
      assert base[..0] + Kept(a, base[0..]) == Kept(a, base[0..]) && base[0..] == base;
    } else {
      var items := base[..k] + Kept(a, base[k..]);
      var x := base[k - 1];
      KeptOfConcat(a, [x], base[k..]);
      KeptOne(a, x);
      assert base[k - 1..] == [x] + base[k..];
      if Requests(a, k) {
        DeleteOne(l, k, now);
        StepKeepsValid(l, Change(DeleteOf(k), now));
        RenumberedWithoutOne(items, k);
        assert items[..k - 1] + items[k..] == base[..k - 1] + Kept(a, base[k - 1..]);
        DeleteEachFrom(Applied(l, DeleteOf(k), now).1, a, base, k - 1, now);
      } else {
        assert items == base[..k - 1] + Kept(a, base[k - 1..]);
        DeleteEachFrom(l, a, base, k - 1, now);
      }
    }
  }

  lemma {:induction false} NothingDropped(a: Action, items: seq<Item>)
    requires |Kept(a, items)| == |items|
    ensures Kept(a, items) == items
    decreases |items|
  {
    hide Requests;
    if items != [] {
      NothingDropped(a, items[..|items| - 1]);
    }
  }

  /**
   * On a numbered list a batch deletion leaves the same items as deleting the requested ids one
   * at a time from the highest down. Duplicate and unknown ids make no difference, since only
   * the ids in use are visited, once each.
   */
  lemma BatchDeleteIsOneByOne(l: List, a: Action, now: int64)
    requires ValidList(l) && Numbered(l) && l.revision + |l.items| <= UINT32_MAX
    requires a.kind == Delete && ChangeFieldsValid(a) && l.revision < UINT32_MAX
    ensures Applied(l, a, now).1.items == DeleteEach(l, a, |l.items|, now).items
  {
    hide ValidItem, Kept, Requests, DeleteEach;
    var n := |l.items|;
    assert l.items[..n] + Kept(a, l.items[n..]) == l.items by {
      KeptAll(a, l.items[n..]);
    }
    assert l.items == Renumbered(l.items);
    DeleteEachFrom(l, a, l.items, n, now);
    if |Kept(a, l.items)| == n {
      NothingDropped(a, l.items);
    }
  }

  /** A deletion fails exactly when no item has an id that the action names. */
  lemma DeleteFailsIffUnknown(l: List, a: Action, now: int64)
    requires ValidList(l) && l.revision < UINT32_MAX && a.kind == Delete && ChangeFieldsValid(a)
    ensures Applied(l, a, now).0 == NotFound <==>
      forall i :: 0 <= i < |l.items| ==> if a.ids == [] then l.items[i].id != a.id else l.items[i].id !in a.ids
  {
    hide ValidItem, Kept;
    if |Kept(a, l.items)| == |l.items| {
      NothingDropped(a, l.items);
      KeptAreItems(a, l.items);
      assert forall i :: 0 <= i < |l.items| ==> l.items[i] in l.items;
    } else if NoneRequested(a, l.items) {
      KeptAll(a, l.items);
      assert false;
    }
  }

  // ---------------------------------------------------------------- what each operation answers

  /** Checks before the kind of action matters. */
  lemma ApplyRefuses(l: List, a: Action, now: int64)
    ensures !ValidList(l) ==> Applied(l, a, now) == (InvalidArg, l)
    ensures ValidList(l) && a.kind == Noop ==> Applied(l, a, now) == (NotFound, l)
    ensures ValidList(l) && a.kind != Noop && l.revision == UINT32_MAX ==> Applied(l, a, now) == (InvalidState, l)
    ensures ValidList(l) && a.kind == OtherKind && l.revision < UINT32_MAX ==> Applied(l, a, now) == (InvalidArg, l)
  {
    hide ValidList;
  }

  /** An addition: which fields and clocks it refuses, and the one item it appends. */
  lemma AddAnswers(l: List, a: Action, now: int64)
    requires ValidList(l) && l.revision < UINT32_MAX && a.kind == Add
    ensures
      var (status, after) := Applied(l, a, now);
      var full := |l.items| == CAPACITY || l.nextId == UINT32_MAX;
      var usable := a.id == 0 && a.ids == [] && Utf8.IsTitle(a.title, TITLE_BYTES) && a.delay <= MAX_INTERVAL
                    && (a.repeat == 0 || 60 <= a.repeat <= MAX_INTERVAL);
      var wait := if a.delay > 0 then a.delay else a.repeat;
      var timely := wait == 0 || (TIME_MIN <= now && now + wait <= TIME_MAX);
      && (status == NoMem <==> full)
      && (status == InvalidArg <==> !full && !usable)
      && (status == InvalidState <==> !full && usable && !timely)
      && (status == Success <==> !full && usable && timely)
      && (status == Success ==>
            var due := if wait == 0 then 0 else now + wait;
            after.nextId == l.nextId + 1 && after.items == l.items + [Item(l.nextId, false, a.title, due, a.repeat)])
  {
    hide ValidItem, Utf8.IsTitle;
  }

  /** A completion closes every item that the action names and changes no other. */
  lemma CompleteCloses(l: List, a: Action, now: int64)
    requires ValidList(l) && a.kind == Complete && Applied(l, a, now).0 == Success
    ensures
      var after := Applied(l, a, now).1;
      && |after.items| == |l.items| && after.nextId == l.nextId
      && forall i :: 0 <= i < |l.items| ==>
        var item := l.items[i];
        after.items[i] == if (if a.ids == [] then item.id == a.id else item.id in a.ids)
                          then item.(completed := true, due := 0, repeat := 0) else item
  {
    hide Utf8.IsTitle, IdsValid;
    forall i | 0 <= i < |l.items|
      ensures ValidItem(l.items[i])
    {
    }
  }

  lemma DeleteStatus(l: List, a: Action, now: int64)
    requires ValidList(l) && l.revision < UINT32_MAX && a.kind == Delete && ChangeFieldsValid(a)
    ensures Applied(l, a, now).0 == Success || Applied(l, a, now).0 == NotFound
  {
  }

  /** A completion or deletion: which fields it refuses, and when there is nothing for it to do. */
  lemma ChangeAnswers(l: List, a: Action, now: int64)
    requires ValidList(l) && l.revision < UINT32_MAX && (a.kind == Complete || a.kind == Delete)
    ensures
      var status := Applied(l, a, now).0;
      var single := a.ids == [] && 0 < a.id < UINT32_MAX;
      var listed := a.id == 0 && 1 <= |a.ids| <= CAPACITY && forall i :: 0 <= i < |a.ids| ==> 0 < a.ids[i] < UINT32_MAX;
      var usable := a.delay == 0 && a.repeat == 0 && a.title == [] && (single || listed);
      && (status == InvalidArg <==> !usable)
      && (usable ==>
            (status == NotFound <==> forall i :: 0 <= i < |l.items| ==>
               (if a.ids == [] then l.items[i].id != a.id else l.items[i].id !in a.ids)
               || (a.kind == Complete && l.items[i].completed)))
      && (status == Success || status == InvalidArg || status == NotFound)
  {
    hide ValidItem, Kept;
    if a.kind == Delete && ChangeFieldsValid(a) {
      hide ValidList, Applied;
      DeleteFailsIffUnknown(l, a, now);
      DeleteStatus(l, a, now);
    }
  }
}
