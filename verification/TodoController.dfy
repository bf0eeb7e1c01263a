/**
 * The controller's transactions on the TODO list: a voice request, and the reminder ticks that
 * run inside its HTTP callbacks, as in components/app_controller/app_controller.c. Clocks,
 * allocation, audio, the network and the store's success are inputs.
 */
module TodoController {
  import opened Bytes
  import opened Todo
  import TodoLaws
  import TodoWire

  /** What one call of the reminder tick observes. */
  datatype Tick = Tick(utcAtCheck: int64, monotonicAtCheck: int, utc: int64, monotonicAtDue: int,
                       hasMemory: bool, speakerOk: bool, storeOk: bool, monotonicAtEnd: int)

  /** What the HTTP layer calls back: a cancellation poll, or the microphone going on or off. */
  datatype Callback = Poll(tick: Tick) | Recording(active: bool)

  datatype Recognition = Recognized | NothingHeard | RecognitionFailed

  /** What one voice request observes, in order. */
  datatype Voice = Voice(settingsOk: bool, held: bool, cancelledAtStart: bool, hasBuffer: bool,
                         recognition: seq<Callback>, recognized: Recognition,
                         connected: bool, utcAtCheck: int64,
                         chat: seq<Callback>, answer: Option<Action>, cancelledAfterChat: bool,
                         hasMemory: bool, utc: int64, cancelledBeforeSave: bool, storeOk: bool,
                         cancelledAtEnd: bool)

  datatype Notice = StorageUnusable | NotConfigured | Cancelled | Failed | NoClearTask
                  | NotConnected | NoClock | ListFull | NotSaved
                  | TodoAdded | TodoCompleted | TodoDeleted

  /** Everything the two transactions read or write, and the log of what was stored. */
  datatype Snapshot = Snapshot(list: List, flash: Option<seq<byte>>, storageOk: bool, retryUs: int,
                               recording: bool, sleeping: bool, log: seq<TodoLaws.Op>)

  // ---------------------------------------------------------------- the transactions on values

  predicate TickGated(s: Snapshot, t: Tick)
  {
    !s.storageOk || t.utcAtCheck < TIME_MIN || t.monotonicAtCheck < s.retryUs || s.recording || s.sleeping
  }

  ghost function TickEffect(s: Snapshot, t: Tick): Snapshot
    requires |s.list.items| <= CAPACITY
  {
    var id := DueId(s.list, t.utc);
    if TickGated(s, t) || id == 0 then s
    else
      var waiting := s.(retryUs := t.monotonicAtDue + 60000000);
      var (status, l) := Reminded(s.list, id, t.utc);
      if !t.hasMemory || status != Success || !t.speakerOk || !t.storeOk then waiting
      else waiting.(list := l, flash := Some(TodoWire.Wire(l)), retryUs := t.monotonicAtEnd + 2000000,
                    log := s.log + [TodoLaws.Alert(id, t.utc)])
  }

  ghost function CallbackEffect(s: Snapshot, c: Callback): (r: Snapshot)
    requires |s.list.items| <= CAPACITY
    ensures |r.list.items| <= CAPACITY
  {
    match c
    case Poll(tick) => TickEffect(s, tick)
    case Recording(active) => s.(recording := active)
  }

  ghost function CallbackEffects(s: Snapshot, cs: seq<Callback>): (r: Snapshot)
    requires |s.list.items| <= CAPACITY
    ensures |r.list.items| <= CAPACITY
    decreases |cs|
  {
    if cs == [] then s else CallbackEffects(CallbackEffect(s, cs[0]), cs[1..])
  }

  function Report(kind: Kind): Notice
  {
    if kind == Add then TodoAdded else if kind == Complete then TodoCompleted else TodoDeleted
  }

  /** The end of a request, once the model has answered: apply to a copy, save, then commit. */
  ghost function CommitEffect(s: Snapshot, v: Voice, a: Action): (Snapshot, Notice)
    requires |s.list.items| <= CAPACITY
  {
    if v.cancelledAfterChat then (s, Cancelled)
    else if !v.hasMemory then (s, Failed)
    else
      var (status, l) := Applied(s.list, a, v.utc);
      if status == NotFound || status == InvalidState then (s, NoClearTask)
      else if status == NoMem then (s, ListFull)
      else if status != Success then (s, Failed)
      else if v.cancelledBeforeSave then (s, Cancelled)
      else if !v.storeOk then (s, NotSaved)
      else (s.(list := l, flash := Some(TodoWire.Wire(l)), log := s.log + [TodoLaws.Change(a, v.utc)]),
            Report(a.kind))
  }

  /** The list as it was when the model was asked. */
  ghost function Shown(s: Snapshot, v: Voice): (r: Snapshot)
    requires |s.list.items| <= CAPACITY
    ensures |r.list.items| <= CAPACITY
  {
    CallbackEffects(s, v.recognition)
  }

  ghost function RequestEffect(s: Snapshot, v: Voice): (Snapshot, Notice)
    requires |s.list.items| <= CAPACITY
  {
    if !s.storageOk then (s, StorageUnusable)
    else if !v.settingsOk then (s, NotConfigured)
    else if !v.held || v.cancelledAtStart then (s, Cancelled)
    else if !v.hasBuffer then (s, Failed)
    else
      var shown := Shown(s, v);
      if v.recognized == NothingHeard then (shown, NoClearTask)
      else if v.recognized != Recognized then (shown, Failed)
      else if !v.connected then (shown, NotConnected)
      else if v.utcAtCheck < TIME_MIN then (shown, NoClock)
      else if !ValidList(shown.list) then (shown, Failed)
      else
        var answered := CallbackEffects(shown, v.chat);
        if v.answer.None? then (answered, Failed) else CommitEffect(answered, v, v.answer.value)
  }

  predicate Committed(n: Notice)
  {
    n == TodoAdded || n == TodoCompleted || n == TodoDeleted
  }

  ghost function VoiceEffect(s: Snapshot, v: Voice): (Snapshot, Notice)
    requires |s.list.items| <= CAPACITY
  {
    var (after, notice) := RequestEffect(s, v);
    (after.(recording := false), if v.cancelledAtEnd && !Committed(notice) then Cancelled else notice)
  }

  /** What a reload of the store returns. */
  ghost function Loaded(flash: Option<seq<byte>>): Option<List>
  {
    match flash
    case None => Some(EMPTY)
    case Some(wire) => TodoWire.Decoded(wire)
  }

  ghost function Booted(stored: Option<seq<byte>>, readable: bool): (s: Snapshot)
    ensures |s.list.items| <= CAPACITY
  {
    var ok := readable && Loaded(stored).Some?;
    Snapshot(if ok then Loaded(stored).value else EMPTY, stored, ok, 0, false, false, [])
  }

  /**
   * How far the factory reset gets, as far as it concerns the list: it restarts the device only
   * when every step succeeded.
   */
  datatype Reset = NotCleared | ClearedOnly | ClearedAndRestarted(readable: bool)

  ghost function ResetEffect(s: Snapshot, r: Reset): Snapshot
  {
    match r
    case NotCleared => s
    case ClearedOnly => s.(flash := None)
    case ClearedAndRestarted(readable) => Booted(None, readable)
  }

  // ---------------------------------------------------------------- the controller

  lemma AppliedIsValid(l: List, a: Action, now: int64)
    requires Applied(l, a, now).0 == Success
    ensures ValidList(l) && ValidList(Applied(l, a, now).1)
  {
    hide ValidItem, Added, Kept;
    TodoLaws.StepKeepsValid(l, TodoLaws.Change(a, now));
  }

  lemma DueListIsValid(l: List, now: int64)
    requires DueId(l, now) != 0
    ensures ValidList(l)
  {
  }

  class Controller {
    const todos: TodoList
    var flash: Option<seq<byte>>
    var storageOk: bool
    var reminderRetryUs: int
    var recording: bool
    var sleeping: bool
    ghost var log: seq<TodoLaws.Op>

    ghost predicate Valid()
      reads this, todos
    {
      todos.Shaped() && todos.count <= CAPACITY
    }

    /** Start-up: an empty list, then whatever the store holds, if it can be read. */
    constructor (stored: Option<seq<byte>>, readable: bool)
      ensures Valid() && fresh(todos) && fresh(todos.items)
      ensures State() == Booted(stored, readable)
    {
      todos := new TodoList();
      flash, storageOk, reminderRetryUs := stored, readable, 0;
      recording, sleeping, log := false, false, [];
      new;
      if readable && stored.Some? {
        storageOk := TodoWire.Decode(stored.value, todos);
      }
    }

    ghost function State(): (s: Snapshot)
      requires Valid()
      reads this, todos, todos.items
      ensures |s.list.items| <= CAPACITY
    {
      Snapshot(todos.Value(), flash, storageOk, reminderRetryUs, recording, sleeping, log)
    }

    /** `smart_todo_save`: encode, then one store that happens as a whole or not at all. */
    method Save(candidate: TodoList, storeOk: bool) returns (saved: bool)
      requires candidate.Shaped() && candidate.count <= CAPACITY
      modifies this`flash
      ensures saved <==> ValidList(candidate.Value()) && storeOk
      ensures flash == if saved then Some(TodoWire.Wire(candidate.Value())) else old(flash)
    {
      hide ValidList, TodoWire.Wire;
      var wire := new byte[TodoWire.WIRE_BYTES](_ => 0);
      var encoded := TodoWire.Encode(candidate, wire);
      if !encoded || !storeOk {
        return false;
      }
      flash := Some(wire[..]);
      return true;
    }

    /** `smart_reminders`. */
    method SmartReminders(t: Tick)
      requires Valid()
      modifies this, todos, todos.items
      ensures Valid() && State() == TickEffect(old(State()), t)
    {
      hide ValidItem, ValidList, DueIndex, IndexOf, TodoWire.Wire;
      if !storageOk || t.utcAtCheck < TIME_MIN || t.monotonicAtCheck < reminderRetryUs || recording || sleeping {
        return;
      }
      var id := todos.Due(t.utc);
      if id == 0 {
        return;
      }
      reminderRetryUs := t.monotonicAtDue + 60000000;
      if !t.hasMemory {
        return;
      }
      var candidate := new TodoList();
      candidate.CopyFrom(todos);
      var status := candidate.Remind(id, t.utc);
      if status == Success && t.speakerOk {
        TodoLaws.RemindKeepsValid(todos.Value(), id, t.utc) by {
          DueListIsValid(todos.Value(), t.utc);
        }
        var saved := Save(candidate, t.storeOk);
        if saved {
          todos.CopyFrom(candidate);
          reminderRetryUs := t.monotonicAtEnd + 2000000;
          log := log + [TodoLaws.Alert(id, t.utc)];
        }
      }
    }

    /** `voice_cancelled`, which serves the reminders unless the microphone is on, or `voice_recording`. */
    method RunCallback(c: Callback)
      requires Valid()
      modifies this, todos, todos.items
      ensures Valid() && State() == CallbackEffect(old(State()), c)
    {
      hide DueId, Reminded;
      match c
      case Poll(tick) =>
        if !recording {
          SmartReminders(tick);
        }
      case Recording(active) =>
        recording := active;
    }

    /** The callbacks of one HTTP exchange. */
    method RunCallbacks(cs: seq<Callback>)
      requires Valid()
      modifies this, todos, todos.items
      ensures Valid() && State() == CallbackEffects(old(State()), cs)
    {
      hide CallbackEffect;
      ghost var start := State();
      assert cs[0..] == cs;
      for i := 0 to |cs|
        invariant Valid() && CallbackEffects(State(), cs[i..]) == CallbackEffects(start, cs)
      {
        assert cs[i..][0] == cs[i] && cs[i..][1..] == cs[i + 1..];
        RunCallback(cs[i]);
      }
    }

    /** From the model's answer on: apply to a copy, save the copy, and only then take it over. */
    method Commit(v: Voice, a: Action) returns (notice: Notice)
      requires Valid()
      modifies this, todos, todos.items
      ensures Valid() && (State(), notice) == CommitEffect(old(State()), v, a)
    {
      hide ValidList, TodoWire.Wire, Applied;
      if v.cancelledAfterChat {
        return Cancelled;
      }
      if !v.hasMemory {
        return Failed;
      }
      var candidate := new TodoList();
      candidate.CopyFrom(todos);
      var status := candidate.Apply(a, v.utc);
      if status == NotFound || status == InvalidState {
        return NoClearTask;
      }
      if status == NoMem {
        return ListFull;
      }
      if status != Success {
        return Failed;
      }
      if v.cancelledBeforeSave {
        return Cancelled;
      }
      AppliedIsValid(todos.Value(), a, v.utc);
      var saved := Save(candidate, v.storeOk);
      if !saved {
        return NotSaved;
      }
      todos.CopyFrom(candidate);
      log := log + [TodoLaws.Change(a, v.utc)];
      return if a.kind == Add then TodoAdded else if a.kind == Complete then TodoCompleted else TodoDeleted;
    }

    /** The body of `handle_voice`, up to its common end. */
    method RunRequest(v: Voice) returns (notice: Notice)
      requires Valid()
      modifies this, todos, todos.items
      ensures Valid() && (State(), notice) == RequestEffect(old(State()), v)
    {
      hide ValidList, CommitEffect, CallbackEffects;
      if !storageOk {
        return StorageUnusable;
      }
      if !v.settingsOk {
        return NotConfigured;
      }
      if !v.held || v.cancelledAtStart {
        return Cancelled;
      }
      if !v.hasBuffer {
        return Failed;
      }
      RunCallbacks(v.recognition);
      if v.recognized == NothingHeard {
        return NoClearTask;
      }
      if v.recognized != Recognized {
        return Failed;
      }
      if !v.connected {
        return NotConnected;
      }
      if v.utcAtCheck < TIME_MIN {
        return NoClock;
      }
      var valid := todos.Valid();
      if !valid {
        return Failed;
      }
      RunCallbacks(v.chat);
      if v.answer.None? {
        return Failed;
      }
      notice := Commit(v, v.answer.value);
    }

    /** `handle_voice`. */
    method HandleVoice(v: Voice) returns (notice: Notice)
      requires Valid()
      modifies this, todos, todos.items
      ensures Valid() && (State(), notice) == VoiceEffect(old(State()), v)
    {
      hide RequestEffect;
      notice := RunRequest(v);
      recording := false;
      if v.cancelledAtEnd && !Committed(notice) {
        notice := Cancelled;
      }
    }

    /**
     * The factory reset: the store is cleared, then settings and credentials, and the device restarts
     * only if all of that succeeded.
     */
    method FactoryReset(clears: bool, restSucceeds: bool) returns (restarts: bool)
      requires Valid()
      modifies this`flash
      ensures Valid() && restarts == (!sleeping && clears && restSucceeds)
      ensures State() == if sleeping then old(State())
                         else ResetEffect(old(State()), if clears then ClearedOnly else NotCleared)
    {
      if sleeping || !clears {
        return false;
      }
      flash := None;
      return restSucceeds;
    }

    /** The list's part in `handle_shutdown`: from here on no alert and no request. */
    method PrepareSleep()
      requires Valid()
      modifies this`sleeping
      ensures Valid() && State() == old(State()).(sleeping := true)
    {
      sleeping := true;
    }
  }
}
