/** What holds over every interleaving of reminder ticks with voice requests. */
module TodoTransactions {
  import opened Bytes
  import opened Todo
  import opened TodoController
  import TodoLaws
  import TodoReminders
  import TodoWire
  import Utf8

  /** Memory holds a valid list, and it is the one a reload of the store would give. */
  ghost predicate InSync(s: Snapshot)
  {
    |s.list.items| <= CAPACITY && (s.storageOk ==> ValidList(s.list) && Loaded(s.flash) == Some(s.list))
  }

  /** The same tasks, by number, title and completion. */
  predicate SameNames(l: List, m: List)
  {
    |l.items| == |m.items| &&
    forall i :: 0 <= i < |l.items| ==>
      l.items[i].id == m.items[i].id && l.items[i].title == m.items[i].title
      && l.items[i].completed == m.items[i].completed
  }

  predicate AllAlerts(ops: seq<TodoLaws.Op>)
  {
    forall i :: 0 <= i < |ops| ==> ops[i].Alert?
  }

  /** `after` is `before` with exactly these operations stored, one after the other. */
  ghost predicate Stored(before: Snapshot, after: Snapshot, ops: seq<TodoLaws.Op>)
  {
    && after.log == before.log + ops
    && after.list == TodoLaws.Run(before.list, ops)
    && |after.list.items| <= CAPACITY
    && after.flash == (if ops == [] then before.flash else Some(TodoWire.Wire(after.list)))
    && after.storageOk == before.storageOk
    && after.list.revision == before.list.revision + |ops|
  }

  /** The operations stored between two snapshots. */
  function StoredSince(before: Snapshot, after: Snapshot): seq<TodoLaws.Op>
  {
    if |before.log| <= |after.log| then after.log[|before.log|..] else []
  }

  lemma {:induction false} RunOfConcat(l: List, ops: seq<TodoLaws.Op>, more: seq<TodoLaws.Op>)
    ensures TodoLaws.Run(l, ops + more) == TodoLaws.Run(TodoLaws.Run(l, ops), more)
    decreases |ops|
  {
    hide TodoLaws.Perform;
    if ops == [] {
      assert ops + more == more;
    } else {
      assert (ops + more)[1..] == ops[1..] + more;
      RunOfConcat(TodoLaws.Perform(l, ops[0]).1, ops[1..], more);
    }
  }

  lemma RunOfOne(l: List, op: TodoLaws.Op)
    ensures TodoLaws.Run(l, [op]) == TodoLaws.Perform(l, op).1
  {
    hide TodoLaws.Perform;
    assert [op][1..] == [];
    assert TodoLaws.Run(TodoLaws.Perform(l, op).1, []) == TodoLaws.Perform(l, op).1;
  }

  lemma StoredComposes(a: Snapshot, b: Snapshot, c: Snapshot, ops: seq<TodoLaws.Op>, more: seq<TodoLaws.Op>)
    requires Stored(a, b, ops) && Stored(b, c, more)
    ensures Stored(a, c, ops + more)
  {
    hide TodoLaws.Perform, TodoWire.Wire;
    RunOfConcat(a.list, ops, more);
    if more == [] {
      assert ops + more == ops;
    }
  }

  /** Storing a valid list and nothing else keeps memory and store in step. */
  lemma StoredListLoads(l: List)
    requires ValidList(l)
    ensures Loaded(Some(TodoWire.Wire(l))) == Some(l)
  {
    TodoWire.WireRoundTrip(l);
  }

  // ---------------------------------------------------------------- reminders

  lemma RemindersKeepNames(l: List, id: uint32, now: int64)
    ensures SameNames(l, Reminded(l, id, now).1)
  {
    hide ValidList, NextDue;
  }

  /** One tick stores one alert of the due task, or nothing. */
  ghost function TickOps(s: Snapshot, t: Tick): seq<TodoLaws.Op>
    requires |s.list.items| <= CAPACITY
  {
    if TickEffect(s, t).log == s.log then [] else [TodoLaws.Alert(DueId(s.list, t.utc), t.utc)]
  }

  lemma NamesReflexive(l: List)
    ensures SameNames(l, l)
  {
  }

  lemma TickLaw(s: Snapshot, t: Tick)
    requires InSync(s)
    ensures
      var after := TickEffect(s, t);
      InSync(after) && Stored(s, after, TickOps(s, t)) && SameNames(s.list, after.list)
  {
    hide ValidList, DueId, Reminded, TodoWire.Wire, TodoWire.Decoded, SameNames;
    var id := DueId(s.list, t.utc);
    RemindersKeepNames(s.list, id, t.utc);
    RunOfOne(s.list, TodoLaws.Alert(id, t.utc));
    NamesReflexive(s.list);
    TodoLaws.RevisionCounts(s.list, TodoLaws.Alert(id, t.utc));
    if TickEffect(s, t).log != s.log {
      TodoLaws.RemindKeepsValid(s.list, id, t.utc);
      StoredListLoads(Reminded(s.list, id, t.utc).1);
    }
  }

  ghost function CallbackOp(s: Snapshot, c: Callback): seq<TodoLaws.Op>
    requires |s.list.items| <= CAPACITY
  {
    match c
    case Poll(tick) => TickOps(s, tick)
    case Recording(_) => []
  }

  /** The alerts stored during some callbacks, in order. */
  ghost function CallbackOps(s: Snapshot, cs: seq<Callback>): seq<TodoLaws.Op>
    requires |s.list.items| <= CAPACITY
    decreases |cs|
  {
    if cs == [] then [] else CallbackOp(s, cs[0]) + CallbackOps(CallbackEffect(s, cs[0]), cs[1..])
  }

  lemma NothingStored(s: Snapshot, t: Snapshot)
    requires t.log == s.log && t.list == s.list && t.flash == s.flash && t.storageOk == s.storageOk
    requires |s.list.items| <= CAPACITY
    ensures Stored(s, t, [])
  {
    assert s.log + [] == s.log;
  }

  lemma NamesTransitive(l: List, m: List, n: List)
    requires SameNames(l, m) && SameNames(m, n)
    ensures SameNames(l, n)
  {
  }

  /** Whatever the callbacks do, they store alerts only, and all items keep their names. */
  lemma {:induction false} CallbacksLaw(s: Snapshot, cs: seq<Callback>)
    requires InSync(s)
    ensures
      var after := CallbackEffects(s, cs);
      && InSync(after) && Stored(s, after, CallbackOps(s, cs)) && AllAlerts(CallbackOps(s, cs))
      && SameNames(s.list, after.list)
    decreases |cs|
  {
    hide ValidList, Loaded, TickEffect, TodoLaws.Run, TodoWire.Wire, SameNames, Stored;
    if cs == [] {
      NothingStored(s, s);
      NamesReflexive(s.list);
    } else {
      var next, after := CallbackEffect(s, cs[0]), CallbackEffects(s, cs);
      if cs[0].Poll? {
        TickLaw(s, cs[0].tick);
      } else {
        NothingStored(s, next);
        NamesReflexive(s.list);
      }
      CallbacksLaw(next, cs[1..]);
      StoredComposes(s, next, after, CallbackOp(s, cs[0]), CallbackOps(next, cs[1..]));
      NamesTransitive(s.list, next.list, after.list);
    }
  }

  // ---------------------------------------------------------------- one voice request

  /** The state when the model's answer has arrived. */
  ghost function Answered(s: Snapshot, v: Voice): (r: Snapshot)
    requires |s.list.items| <= CAPACITY
    ensures |r.list.items| <= CAPACITY
  {
    CallbackEffects(Shown(s, v), v.chat)
  }

  /** Every alert stored while the two HTTP exchanges were in flight. */
  ghost function InFlight(s: Snapshot, v: Voice): seq<TodoLaws.Op>
    requires |s.list.items| <= CAPACITY
  {
    CallbackOps(s, v.recognition) + CallbackOps(Shown(s, v), v.chat)
  }

  lemma ExchangesLaw(s: Snapshot, v: Voice)
    requires InSync(s)
    ensures InSync(Shown(s, v)) && Stored(s, Shown(s, v), CallbackOps(s, v.recognition))
    ensures Answered(s, v).storageOk == s.storageOk
    ensures InSync(Answered(s, v)) && Stored(s, Answered(s, v), InFlight(s, v))
    ensures AllAlerts(CallbackOps(s, v.recognition)) && AllAlerts(InFlight(s, v))
    ensures SameNames(Shown(s, v).list, Answered(s, v).list)
  {
    hide ValidList, Loaded, CallbackEffects, CallbackOps, TodoLaws.Run, SameNames, TodoWire.Wire;
    CallbacksLaw(s, v.recognition);
    hide Stored;
    CallbacksLaw(Shown(s, v), v.chat);
    StoredComposes(s, Shown(s, v), Answered(s, v), CallbackOps(s, v.recognition), CallbackOps(Shown(s, v), v.chat));
  }

  /** The last step stores the requested change and reports it, or stores nothing. */
  lemma CommitLaw(s: Snapshot, v: Voice, a: Action)
    requires InSync(s) && s.storageOk
    ensures
      var (after, notice) := CommitEffect(s, v, a);
      && InSync(after)
      && (Committed(notice) ==> notice == Report(a.kind) && Applied(s.list, a, v.utc) == (Success, after.list)
                                && Stored(s, after, [TodoLaws.Change(a, v.utc)]))
      && (!Committed(notice) ==> after == s && Stored(s, after, []))
  {
    hide ValidList, Applied, TodoWire.Wire, TodoWire.Decoded;
    RunOfOne(s.list, TodoLaws.Change(a, v.utc));
    NothingStored(s, s);
    if Committed(CommitEffect(s, v, a).1) {
      AppliedIsValid(s.list, a, v.utc);
      TodoLaws.RevisionCounts(s.list, TodoLaws.Change(a, v.utc));
      StoredListLoads(Applied(s.list, a, v.utc).1);
    }
  }

  /** The request gets past its preconditions, so the recording is sent. */
  predicate Began(s: Snapshot, v: Voice)
  {
    s.storageOk && v.settingsOk && v.held && !v.cancelledAtStart && v.hasBuffer
  }

  /** The recording was understood, so the model is asked. */
  ghost predicate Asked(s: Snapshot, v: Voice)
    requires |s.list.items| <= CAPACITY
  {
    && Began(s, v) && v.recognized == Recognized && v.connected && v.utcAtCheck >= TIME_MIN
    && ValidList(Shown(s, v).list)
  }

  /** The state the request's exchanges leave, as far as it gets. */
  ghost function Exchanged(s: Snapshot, v: Voice): Snapshot
    requires |s.list.items| <= CAPACITY
  {
    if Asked(s, v) then Answered(s, v) else if Began(s, v) then Shown(s, v) else s
  }

  /** The alerts stored by then. */
  ghost function ExchangeOps(s: Snapshot, v: Voice): seq<TodoLaws.Op>
    requires |s.list.items| <= CAPACITY
  {
    if Asked(s, v) then InFlight(s, v) else if Began(s, v) then CallbackOps(s, v.recognition) else []
  }

  lemma RequestPaths(s: Snapshot, v: Voice)
    requires |s.list.items| <= CAPACITY
    ensures
      var (after, notice) := RequestEffect(s, v);
      if Asked(s, v) && v.answer.Some? then (after, notice) == CommitEffect(Answered(s, v), v, v.answer.value)
      else !Committed(notice) && after == Exchanged(s, v)
  {
    hide ValidList, CallbackEffects, CommitEffect;
  }

  lemma ExchangedLaw(s: Snapshot, v: Voice)
    requires InSync(s)
    ensures InSync(Exchanged(s, v)) && Stored(s, Exchanged(s, v), ExchangeOps(s, v)) && AllAlerts(ExchangeOps(s, v))
  {
    hide Stored, Shown, Answered, InFlight, CallbackOps, Asked, ValidList, Loaded;
    ExchangesLaw(s, v);
    NothingStored(s, s);
  }

  lemma OpsAreStoredSince(s: Snapshot, after: Snapshot, ops: seq<TodoLaws.Op>)
    requires Stored(s, after, ops)
    ensures StoredSince(s, after) == ops
  {
    assert after.log[|s.log|..] == ops;
  }

  lemma AskedNeedsStorage(s: Snapshot, v: Voice)
    requires |s.list.items| <= CAPACITY && Asked(s, v)
    ensures s.storageOk && Exchanged(s, v) == Answered(s, v) && ExchangeOps(s, v) == InFlight(s, v)
  {
  }

  lemma StoredRun(s: Snapshot, after: Snapshot, ops: seq<TodoLaws.Op>)
    requires Stored(s, after, ops)
    ensures after.list == TodoLaws.Run(s.list, ops)
  {
  }

  /**
   * A request keeps memory and store in step. If it reports a change, the store holds that change
   * applied after every alert stored in flight, to a list whose tasks still have the numbers,
   * titles and completion the model was shown. If it reports anything else, only alerts were
   * stored.
   */
  lemma RequestLaw(s: Snapshot, v: Voice)
    requires InSync(s)
    ensures
      var (after, notice) := RequestEffect(s, v);
      var ops := StoredSince(s, after);
      && InSync(after) && Stored(s, after, ops)
      && (!Committed(notice) ==> AllAlerts(ops))
      && (Committed(notice) ==>
            && v.answer.Some? && notice == Report(v.answer.value.kind)
            && ops == InFlight(s, v) + [TodoLaws.Change(v.answer.value, v.utc)]
            && Answered(s, v).list == TodoLaws.Run(s.list, InFlight(s, v))
            && Applied(Answered(s, v).list, v.answer.value, v.utc) == (Success, after.list)
            && SameNames(Shown(s, v).list, Answered(s, v).list))
  {
    var (after, notice) := RequestEffect(s, v);
    hide RequestEffect, Stored, InSync, Answered, Shown, InFlight, CommitEffect, Applied, SameNames, Asked,
         StoredSince, AllAlerts, Exchanged, ExchangeOps;
    RequestPaths(s, v);
    ExchangesLaw(s, v);
    ExchangedLaw(s, v);
    StoredRun(s, Answered(s, v), InFlight(s, v));
    if Asked(s, v) && v.answer.Some? {
      AskedNeedsStorage(s, v);
      CommitLaw(Answered(s, v), v, v.answer.value);
      if Committed(notice) {
        var change := [TodoLaws.Change(v.answer.value, v.utc)];
        StoredComposes(s, Answered(s, v), after, InFlight(s, v), change);
        OpsAreStoredSince(s, after, InFlight(s, v) + change);
      } else {
        OpsAreStoredSince(s, after, InFlight(s, v));
      }
    } else {
      OpsAreStoredSince(s, after, ExchangeOps(s, v));
    }
  }

  /** The same of the whole of `handle_voice`; "cancelled" is never said of a stored change. */
  lemma VoiceLaw(s: Snapshot, v: Voice)
    requires InSync(s)
    ensures
      var (after, notice) := VoiceEffect(s, v);
      var ops := StoredSince(s, after);
      && InSync(after) && !after.recording && Stored(s, after, ops)
      && (!Committed(notice) ==> AllAlerts(ops))
      && (Committed(notice) ==>
            && v.answer.Some? && notice == Report(v.answer.value.kind)
            && ops == InFlight(s, v) + [TodoLaws.Change(v.answer.value, v.utc)]
            && Applied(Answered(s, v).list, v.answer.value, v.utc) == (Success, after.list)
            && Answered(s, v).list == TodoLaws.Run(s.list, InFlight(s, v))
            && SameNames(Shown(s, v).list, Answered(s, v).list))
  {
    hide RequestEffect, Answered, Shown, InFlight, Applied, SameNames, AllAlerts, ValidList,
         TodoLaws.Run, TodoWire.Wire, Loaded;
    RequestLaw(s, v);
  }

  // ---------------------------------------------------------------- what a request answers

  lemma StorageStays(s: Snapshot, v: Voice)
    requires InSync(s) && s.storageOk
    ensures ValidList(Shown(s, v).list) && ValidList(Answered(s, v).list)
  {
    hide ValidList, Loaded, CallbackEffects, CallbackOps, TodoLaws.Run, TodoWire.Wire;
    CallbacksLaw(s, v.recognition);
    CallbacksLaw(Shown(s, v), v.chat);
  }

  /** The model is asked exactly when nothing stands in the way; the list shown to it is always valid. */
  lemma AskedIff(s: Snapshot, v: Voice)
    requires InSync(s)
    ensures Began(s, v) <==> s.storageOk && v.settingsOk && v.held && !v.cancelledAtStart && v.hasBuffer
    ensures Asked(s, v) <==>
      && s.storageOk && v.settingsOk && v.held && !v.cancelledAtStart && v.hasBuffer
      && v.recognized == Recognized && v.connected && v.utcAtCheck >= TIME_MIN
  {
    hide ValidList, Loaded, CallbackEffects, Stored, CallbackOps;
    CallbacksLaw(s, v.recognition);
    if Began(s, v) {
      StorageStays(s, v);
    }
  }

  /**
   * A request is committed if and only if the model was asked and answered, nobody cancelled before or
   * after the change was applied, memory sufficed, the change applies to the list as it is by then, and
   * the store took it.
   */
  lemma CommittedIff(s: Snapshot, v: Voice)
    requires InSync(s)
    ensures Committed(VoiceEffect(s, v).1) <==>
      && s.storageOk && v.settingsOk && v.held && !v.cancelledAtStart && v.hasBuffer
      && v.recognized == Recognized && v.connected && v.utcAtCheck >= TIME_MIN
      && v.answer.Some? && !v.cancelledAfterChat && v.hasMemory
      && Applied(Answered(s, v).list, v.answer.value, v.utc).0 == Success
      && !v.cancelledBeforeSave && v.storeOk
  {
    hide Asked, Applied, Answered, Shown, ValidList, Loaded;
    RequestPaths(s, v);
    AskedIff(s, v);
  }

  lemma AppliedKinds(l: List, a: Action, now: int64)
    requires Applied(l, a, now).0 == Success
    ensures a.kind == Add || a.kind == Complete || a.kind == Delete
  {
    hide ValidList, Added, Kept;
  }

  /** Which of the three reports a committed request gives. */
  lemma CommittedReport(s: Snapshot, v: Voice)
    requires InSync(s) && Committed(VoiceEffect(s, v).1)
    ensures v.answer.Some?
    ensures VoiceEffect(s, v).1 == match v.answer.value.kind
                                   case Add => TodoAdded
                                   case Complete => TodoCompleted
                                   case _ => TodoDeleted
  {
    assert |s.list.items| <= CAPACITY;
    hide InSync, Asked, Applied, Answered, Shown, ValidList, Exchanged;
    RequestPaths(s, v);
    hide RequestEffect;
    AppliedKinds(Answered(s, v).list, v.answer.value, v.utc);
  }

  /** The notices of the last step, in the order in which it can fail. */
  lemma CommitNotices(s: Snapshot, v: Voice, a: Action)
    requires |s.list.items| <= CAPACITY
    ensures
      var notice := CommitEffect(s, v, a).1;
      var status := Applied(s.list, a, v.utc).0;
      var tried := !v.cancelledAfterChat && v.hasMemory;
      && (notice == Cancelled <==> v.cancelledAfterChat || (tried && status == Success && v.cancelledBeforeSave))
      && (notice == NoClearTask <==> tried && (status == NotFound || status == InvalidState))
      && (notice == ListFull <==> tried && status == NoMem)
      && (notice == NotSaved <==> tried && status == Success && !v.cancelledBeforeSave && !v.storeOk)
      && (notice == Failed <==> !v.cancelledAfterChat && (!v.hasMemory || status == InvalidArg))
      && notice != StorageUnusable && notice != NotConfigured && notice != NotConnected && notice != NoClock
  {
    hide Applied, TodoWire.Wire;
  }

  /** The notices of a request that comes to no answer. */
  lemma EarlyNotices(s: Snapshot, v: Voice)
    requires |s.list.items| <= CAPACITY && !(Asked(s, v) && v.answer.Some?)
    ensures
      var notice := RequestEffect(s, v).1;
      var ready := s.storageOk && v.settingsOk;
      var heard := Began(s, v) && v.recognized == Recognized;
      && (notice == StorageUnusable <==> !s.storageOk)
      && (notice == NotConfigured <==> s.storageOk && !v.settingsOk)
      && (notice == Cancelled <==> ready && (!v.held || v.cancelledAtStart))
      && (notice == NoClearTask <==> Began(s, v) && v.recognized == NothingHeard)
      && (notice == NotConnected <==> heard && !v.connected)
      && (notice == NoClock <==> heard && v.connected && v.utcAtCheck < TIME_MIN)
      && notice != ListFull && notice != NotSaved
  {
    hide ValidList, CallbackEffects, CommitEffect;
  }

  /** When a request is reported cancelled: at its end, before it began, after the answer, or before saving. */
  lemma CancelledIff(s: Snapshot, v: Voice)
    requires InSync(s)
    ensures
      var began := s.storageOk && v.settingsOk && v.held && !v.cancelledAtStart && v.hasBuffer;
      var answered := began && v.recognized == Recognized && v.connected && v.utcAtCheck >= TIME_MIN && v.answer.Some?;
      VoiceEffect(s, v).1 == Cancelled <==>
        || (v.cancelledAtEnd && !Committed(VoiceEffect(s, v).1))
        || (s.storageOk && v.settingsOk && (!v.held || v.cancelledAtStart))
        || (answered && v.cancelledAfterChat)
        || (answered && v.hasMemory && v.cancelledBeforeSave
            && Applied(Answered(s, v).list, v.answer.value, v.utc).0 == Success)
  {
    AskedIff(s, v);
    assert |s.list.items| <= CAPACITY;
    hide InSync, Asked, Began, Answered, CommitEffect, RequestEffect, Applied;
    RequestPaths(s, v);
    if Asked(s, v) && v.answer.Some? {
      CommitNotices(Answered(s, v), v, v.answer.value);
    } else {
      EarlyNotices(s, v);
    }
  }

  /** Every other notice, when nobody cancels at the end: the first thing that went wrong. */
  lemma FailureNotices(s: Snapshot, v: Voice)
    requires InSync(s) && !v.cancelledAtEnd
    ensures
      var notice := VoiceEffect(s, v).1;
      var began := s.storageOk && v.settingsOk && v.held && !v.cancelledAtStart && v.hasBuffer;
      var heard := began && v.recognized == Recognized;
      var tried := heard && v.connected && v.utcAtCheck >= TIME_MIN && v.answer.Some? && !v.cancelledAfterChat
                   && v.hasMemory;
      var status := if v.answer.Some? then Applied(Answered(s, v).list, v.answer.value, v.utc).0 else NotFound;
      && (notice == StorageUnusable <==> !s.storageOk)
      && (notice == NotConfigured <==> s.storageOk && !v.settingsOk)
      && (notice == NotConnected <==> heard && !v.connected)
      && (notice == NoClock <==> heard && v.connected && v.utcAtCheck < TIME_MIN)
      && (notice == NoClearTask <==>
            (began && v.recognized == NothingHeard) || (tried && (status == NotFound || status == InvalidState)))
      && (notice == ListFull <==> tried && status == NoMem)
      && (notice == NotSaved <==> tried && status == Success && !v.cancelledBeforeSave && !v.storeOk)
  {
    AskedIff(s, v);
    assert |s.list.items| <= CAPACITY;
    hide InSync, Asked, Began, Answered, CommitEffect, RequestEffect, Applied;
    RequestPaths(s, v);
    if Asked(s, v) && v.answer.Some? {
      CommitNotices(Answered(s, v), v, v.answer.value);
    } else {
      EarlyNotices(s, v);
    }
  }

  // ---------------------------------------------------------------- what a request that commits nothing stores

  /** A reminder tick alerts: it is let through, an item is due that has a next due time, and nothing fails. */
  ghost predicate Fires(s: Snapshot, t: Tick)
    requires |s.list.items| <= CAPACITY
  {
    && s.storageOk && t.utcAtCheck >= TIME_MIN && t.monotonicAtCheck >= s.retryUs && !s.recording && !s.sleeping
    && DueId(s.list, t.utc) != 0 && t.hasMemory && s.list.revision < UINT32_MAX
    && !RemindFails(TodoReminders.DueItem(s.list, t.utc), t.utc)
    && t.speakerOk && t.storeOk
  }

  /** No tick of an exchange alerts. */
  ghost predicate Quiet(s: Snapshot, cs: seq<Callback>)
    requires |s.list.items| <= CAPACITY
    decreases |cs|
  {
    cs == [] || (!(cs[0].Poll? && Fires(s, cs[0].tick)) && Quiet(CallbackEffect(s, cs[0]), cs[1..]))
  }

  lemma RemindAtLastRevision(l: List, id: uint32, now: int64)
    requires l.revision == UINT32_MAX
    ensures Reminded(l, id, now).0 != Success
  {
  }

  lemma TickStoresIffFires(s: Snapshot, t: Tick)
    requires |s.list.items| <= CAPACITY
    ensures TickOps(s, t) != [] <==> Fires(s, t)
  {
    hide DueId, Reminded, RemindFails, TodoWire.Wire, ValidList, TodoReminders.OverdueBag, Overdue, DueIndex, Advanced;
    var id := DueId(s.list, t.utc);
    assert s.log + [TodoLaws.Alert(id, t.utc)] != s.log;
    if id != 0 {
      if s.list.revision < UINT32_MAX {
        TodoReminders.DrainStep(s.list, t.utc);
      } else {
        RemindAtLastRevision(s.list, id, t.utc);
      }
    }
  }

  /**
   * When the next tick may alert: a minute after a tick that found something due, or two seconds after
   * the alert was stored. A tick that finds nothing due, or is held back, leaves everything as it is.
   */
  lemma TickWaits(s: Snapshot, t: Tick)
    requires |s.list.items| <= CAPACITY
    ensures
      var after := TickEffect(s, t);
      var held := !s.storageOk || t.utcAtCheck < TIME_MIN || t.monotonicAtCheck < s.retryUs
                  || s.recording || s.sleeping;
      && (held || DueId(s.list, t.utc) == 0 ==> after == s)
      && (!held && DueId(s.list, t.utc) != 0 ==>
            after.retryUs == if Fires(s, t) then t.monotonicAtEnd + 2_000_000 else t.monotonicAtDue + 60_000_000)
      && (!Fires(s, t) ==> after.list == s.list && after.flash == s.flash)
      && after.recording == s.recording && after.sleeping == s.sleeping
  {
    hide DueId, Fires, ValidList, Reminded, TodoWire.Wire;
    TickStoresIffFires(s, t);
    assert s.log + [TodoLaws.Alert(DueId(s.list, t.utc), t.utc)] != s.log;
  }

  lemma {:induction false} CallbacksStoreIffFires(s: Snapshot, cs: seq<Callback>)
    requires |s.list.items| <= CAPACITY
    ensures CallbackOps(s, cs) == [] <==> Quiet(s, cs)
    decreases |cs|
  {
    hide TickEffect, Fires, TickOps;
    if cs != [] {
      if cs[0].Poll? {
        TickStoresIffFires(s, cs[0].tick);
      }
      CallbacksStoreIffFires(CallbackEffect(s, cs[0]), cs[1..]);
    }
  }

  lemma {:induction false} PollsWhileRecording(s: Snapshot, polls: seq<Callback>, more: seq<Callback>)
    requires |s.list.items| <= CAPACITY && s.recording && forall k :: 0 <= k < |polls| ==> polls[k].Poll?
    ensures CallbackEffects(s, polls + more) == CallbackEffects(s, more)
    decreases |polls|
  {
    if polls == [] {
      assert polls + more == more;
    } else {
      hide DueId, Reminded, ValidList, TodoWire.Wire;
      assert (polls + more)[1..] == polls[1..] + more;
      PollsWhileRecording(s, polls[1..], more);
    }
  }

  /** From the microphone going on until it goes off nothing alerts and nothing is stored. */
  lemma MicrophoneSilences(s: Snapshot, polls: seq<Callback>)
    requires |s.list.items| <= CAPACITY && forall k :: 0 <= k < |polls| ==> polls[k].Poll?
    ensures CallbackEffects(s, [Recording(true)] + polls + [Recording(false)]) == s.(recording := false)
  {
    var all := [Recording(true)] + polls + [Recording(false)];
    assert all[1..] == polls + [Recording(false)];
    PollsWhileRecording(s.(recording := true), polls, [Recording(false)]);
    assert [Recording(false)][1..] == [];
  }

  /** No tick of the exchanges the request gets to alerts. */
  ghost predicate Undisturbed(s: Snapshot, v: Voice)
    requires |s.list.items| <= CAPACITY
  {
    && (Began(s, v) ==> Quiet(s, v.recognition))
    && (Asked(s, v) ==> Quiet(Shown(s, v), v.chat))
  }

  /** Storing anything at all changes the stored bytes, since it raises the revision. */
  lemma StoredChangesFlash(s: Snapshot, after: Snapshot, ops: seq<TodoLaws.Op>)
    requires InSync(s) && InSync(after) && Stored(s, after, ops) && (ops != [] ==> s.storageOk)
    ensures after.flash == s.flash <==> ops == []
  {
    hide ValidList, TodoLaws.Run, TodoWire.Wire, Loaded;
  }

  lemma ExchangeOpsAreQuiet(s: Snapshot, v: Voice)
    requires |s.list.items| <= CAPACITY
    ensures ExchangeOps(s, v) == [] <==> Undisturbed(s, v)
    ensures ExchangeOps(s, v) != [] ==> s.storageOk
  {
    hide CallbackOps, Quiet, Shown, ValidList;
    CallbacksStoreIffFires(s, v.recognition);
    CallbacksStoreIffFires(Shown(s, v), v.chat);
  }

  /**
   * A request that is not committed, cancelled ones among them, leaves the store's bytes alone
   * exactly when no reminder tick alerts in the exchanges it gets to.
   */
  lemma CancelledStore(s: Snapshot, v: Voice)
    requires InSync(s)
    ensures !Committed(VoiceEffect(s, v).1) ==> (VoiceEffect(s, v).0.flash == s.flash <==> Undisturbed(s, v))
  {
    hide Stored, Exchanged, ExchangeOps, CommitEffect, CallbackOps, Quiet, Asked, ValidList, Loaded;
    RequestPaths(s, v);
    ExchangedLaw(s, v);
    ExchangeOpsAreQuiet(s, v);
    if Asked(s, v) && v.answer.Some? {
      AskedNeedsStorage(s, v);
      ExchangesLaw(s, v);
      CommitLaw(Answered(s, v), v, v.answer.value);
    }
    StoredChangesFlash(s, Exchanged(s, v), ExchangeOps(s, v));
  }

  /** One item, added a minute before it is due, in memory and in the store. */
  const ONE_TASK := List(1, 2, [Item(1, false, ['a' as int], TIME_MIN + 60, 0)])

  ghost function OneTask(): Snapshot
  {
    Snapshot(ONE_TASK, Some(TodoWire.Wire(ONE_TASK)), true, 0, false, false, [])
  }

  /** A recording during which the reminder tick finds the item due, and which is then cancelled. */
  const CANCELLED_REQUEST := Voice(true, true, false, true,
    [Poll(Tick(TIME_MIN + 60, 0, TIME_MIN + 60, 0, true, true, true, 0))], RecognitionFailed,
    true, TIME_MIN + 60, [], None, false, true, TIME_MIN + 60, false, true, true)

  lemma OneTaskIsRun()
    ensures ValidList(ONE_TASK)
    ensures TodoLaws.Run(EMPTY, [TodoLaws.Change(Action(Add, 0, [], ['a' as int], 60, 0), TIME_MIN)]) == ONE_TASK
  {
    TodoReminders.LetterIsTitle();
    RunOfOne(EMPTY, TodoLaws.Change(Action(Add, 0, [], ['a' as int], 60, 0), TIME_MIN));
    hide TodoLaws.Run, Utf8.IsTitle;
  }

  lemma OneTaskInSync()
    ensures InSync(OneTask()) && Began(OneTask(), CANCELLED_REQUEST)
  {
    OneTaskIsRun();
    hide ValidList, TodoWire.Wire, TodoWire.Decoded, TodoLaws.Run;
    StoredListLoads(ONE_TASK);
  }

  lemma FiringTickStores(s: Snapshot, v: Voice)
    requires InSync(s) && Began(s, v) && |v.recognition| == 1 && v.recognition[0].Poll?
    requires Fires(s, v.recognition[0].tick) && v.recognized == RecognitionFailed && v.cancelledAtEnd
    ensures VoiceEffect(s, v).1 == Cancelled && VoiceEffect(s, v).0.flash != s.flash
  {
    hide ValidList, Fires, Loaded, CallbackEffects, CommitEffect, DueId, TickEffect;
    CancelledStore(s, v);
  }

  lemma OneTaskFires()
    ensures Fires(OneTask(), CANCELLED_REQUEST.recognition[0].tick)
  {
    OneTaskIsRun();
    hide TodoWire.Wire, ValidList, TodoLaws.Run;
    assert ONE_TASK.items[..0] == [];
  }

  /** A cancelled request during which something is stored all the same. */
  lemma CancelledYetStored()
    ensures InSync(OneTask())
    ensures
      var (after, notice) := VoiceEffect(OneTask(), CANCELLED_REQUEST);
      notice == Cancelled && after.flash != OneTask().flash
  {
    OneTaskInSync();
    OneTaskFires();
    hide OneTask, VoiceEffect, Fires, InSync;
    FiringTickStores(OneTask(), CANCELLED_REQUEST);
  }

  // ---------------------------------------------------------------- every run

  /** What happens to the controller. Once it prepares to sleep it takes no more requests. */
  datatype Event =
    | Idle(tick: Tick)
    | Request(voice: Voice)
    | FactoryReset(reset: Reset)
    | ShutDown
    | Restart(readable: bool)

  ghost function EventEffect(s: Snapshot, e: Event): (r: Snapshot)
    requires |s.list.items| <= CAPACITY
  {
    match e
    case Idle(tick) => TickEffect(s, tick)
    case Request(voice) => if s.sleeping then s else VoiceEffect(s, voice).0
    case FactoryReset(reset) => if s.sleeping then s else ResetEffect(s, reset)
    case ShutDown => s.(sleeping := true)
    case Restart(readable) => Booted(s.flash, readable)
  }

  lemma BootInSync(flash: Option<seq<byte>>, readable: bool)
    ensures InSync(Booted(flash, readable))
  {
    hide ValidItem, TodoWire.Framed, TodoWire.Unslots;
    assert ValidList(EMPTY);
  }

  /**
   * A reset keeps memory and store in step unless it clears the store, does not restart, and the
   * list in memory is not the initial one.
   */
  lemma ResetKeepsSyncIff(s: Snapshot, r: Reset)
    requires InSync(s)
    ensures InSync(ResetEffect(s, r)) <==> !(r == ClearedOnly && s.storageOk && s.list != EMPTY)
  {
    hide ValidList, TodoWire.Decoded;
    match r
    case NotCleared =>
    case ClearedOnly =>
    case ClearedAndRestarted(readable) => BootInSync(None, readable);
  }

  /** A reset that stops between clearing the store and restarting, with something to forget. */
  ghost predicate HalfReset(s: Snapshot, e: Event)
  {
    e == FactoryReset(ClearedOnly) && !s.sleeping && s.storageOk && s.list != EMPTY
  }

  lemma EventKeepsSync(s: Snapshot, e: Event)
    requires InSync(s)
    ensures InSync(EventEffect(s, e)) <==> !HalfReset(s, e)
  {
    hide ValidList, TickEffect, VoiceEffect, Booted, ResetEffect, Loaded;
    match e
    case Idle(tick) => TickLaw(s, tick);
    case Request(voice) => VoiceLaw(s, voice);
    case FactoryReset(reset) => ResetKeepsSyncIff(s, reset);
    case ShutDown =>
    case Restart(readable) => BootInSync(s.flash, readable);
  }

  ghost predicate IsRun(states: seq<Snapshot>, events: seq<Event>)
  {
    && |states| == |events| + 1
    && forall i :: 0 <= i < |events| ==>
      |states[i].list.items| <= CAPACITY && states[i + 1] == EventEffect(states[i], events[i])
  }

  lemma {:induction false} PrefixInSync(states: seq<Snapshot>, events: seq<Event>,
                                        stored: Option<seq<byte>>, readable: bool, i: nat)
    requires IsRun(states, events) && states[0] == Booted(stored, readable) && i < |states|
    requires forall j :: 0 <= j < i ==> !HalfReset(states[j], events[j])
    ensures InSync(states[i])
    decreases i
  {
    hide EventEffect, InSync, HalfReset;
    if i == 0 {
      BootInSync(stored, readable);
    } else {
      PrefixInSync(states, events, stored, readable, i - 1);
      EventKeepsSync(states[i - 1], events[i - 1]);
    }
  }

  /**
   * From start-up on, through any ticks, requests, resets, shutdowns and restarts, memory holds what
   * a reload would give, if and only if no reset stops half-way with something to forget.
   */
  lemma EveryRunInSync(states: seq<Snapshot>, events: seq<Event>, stored: Option<seq<byte>>, readable: bool)
    requires IsRun(states, events) && states[0] == Booted(stored, readable)
    ensures (forall i :: 0 <= i < |states| ==> InSync(states[i]))
       <==> (forall i :: 0 <= i < |events| ==> !HalfReset(states[i], events[i]))
  {
    hide EventEffect, InSync, HalfReset;
    if forall i :: 0 <= i < |events| ==> !HalfReset(states[i], events[i]) {
      forall i | 0 <= i < |states|
        ensures InSync(states[i])
      {
        PrefixInSync(states, events, stored, readable, i);
      }
    }
    if forall i :: 0 <= i < |states| ==> InSync(states[i]) {
      forall i | 0 <= i < |events|
        ensures !HalfReset(states[i], events[i])
      {
        assert InSync(states[i]) && InSync(states[i + 1]);
        EventKeepsSync(states[i], events[i]);
      }
    }
  }

  /** Start-up takes a stored list that can be read, and marks the storage unusable otherwise. */
  lemma BootAnswers(stored: Option<seq<byte>>, readable: bool, l: List)
    ensures
      var s := Booted(stored, readable);
      && s.flash == stored && s.retryUs == 0 && !s.recording && !s.sleeping
      && (readable && stored.None? ==> s.storageOk && s.list == EMPTY)
      && (readable && stored.Some? && TodoWire.Decoded(stored.value) == Some(l) ==> s.storageOk && s.list == l)
      && (!readable || (stored.Some? && TodoWire.Decoded(stored.value).None?) ==> !s.storageOk && s.list == EMPTY)
      && (readable && ValidList(l) && stored == Some(TodoWire.Wire(l)) ==> s.storageOk && s.list == l)
  {
    hide ValidList, TodoWire.Decoded, TodoWire.Wire;
    if ValidList(l) {
      StoredListLoads(l);
    }
  }

  /** So a restart changes nothing. */
  lemma RestartKeepsList(s: Snapshot)
    requires InSync(s)
    ensures s.storageOk ==> Booted(s.flash, true).list == s.list && Booted(s.flash, true).storageOk
  {
    hide ValidList, TodoWire.Decoded;
  }
}
