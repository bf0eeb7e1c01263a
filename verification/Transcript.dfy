/** The fail-closed transcript collector of services/codex_gateway/voice.py. */
module Transcript {
  import opened Bytes
  import Utf8

  /** A Python string, as code points. */
  type Text = seq<int>

  const PENDING_MAX := 4096
  const TURNS_MAX := 32
  const IDENT_MAX := 256
  const TRANSCRIPT_BYTES_MAX := 512
  const SPACE := 0x20

  /** The Unicode library: case folding with only letters and digits kept, and stripping of blanks. */
  datatype Unicode = Unicode(canonical: Text -> Text, strip: Text -> Text)

  datatype Error = SessionFailed | UnexpectedTurn | ProtocolError | Inconsistent | TooLong | NotEncodable

  /** A turn object; a field that is missing or not a string is `None`. */
  datatype Turn = Turn(user: bool, ident: Option<Text>, transcript: Option<Text>)

  /** A notification by its type; an item without text, or a turn that is no object, is `None`. */
  datatype Event =
    | SessionError
    | Delegation
    | Delta(text: Option<Text>)
    | TurnCreated(turn: Option<Turn>)
    | TurnDone(turn: Option<Turn>)
    | Unrelated

  datatype State = State(order: seq<Text>, final: map<Text, Text>, open: set<Text>, pending: Text)

  const START := State([], map[], {}, [])

  // ---------------------------------------------------------------- one notification

  /** The non-empty final texts in the order the turns appeared, a space between them. */
  function Joined(order: seq<Text>, final: map<Text, Text>): Text
  {
    if order == [] then []
    else
      var front := Joined(order[..|order| - 1], final);
      var last := order[|order| - 1];
      if last !in final || final[last] == [] then front
      else if front == [] then final[last]
      else front + [SPACE] + final[last]
  }

  function BytesOf(text: Text): Option<nat>
  {
    if Utf8.AllScalar(text) then Some(|Utf8.EncodeAll(text)|) else None
  }

  /** The part of the pending text a final consumes: the shorter of the two, when one begins the other. */
  function Consumed(pending: Text, normalized: Text): (part: Option<Text>)
    ensures part.Some? ==> part.value <= pending && part.value <= normalized
    ensures part.Some? ==> part.value in {pending, normalized}
  {
    if pending == [] then Some([])
    else if normalized != [] && normalized <= pending then Some(normalized)
    else if pending <= normalized then Some(pending)
    else None
  }

  function Seen(s: State, ident: Text): State
  {
    if ident in s.order then s else s.(order := s.order + [ident])
  }

  /** The first final of a turn. */
  function Finalized(s: State, ident: Text, text: Text, normalized: Text): (State, Option<Error>)
  {
    match Consumed(s.pending, normalized)
    case None => (s, Some(Inconsistent))
    case Some(prefix) =>
      var next := s.(pending := s.pending[|prefix|..], final := s.final[ident := text], open := s.open - {ident});
      (next, match BytesOf(Joined(next.order, next.final))
             case None => Some(NotEncodable)
             case Some(n) => if n > TRANSCRIPT_BYTES_MAX then Some(TooLong) else None)
  }

  function TurnIngested(u: Unicode, s: State, done: bool, turn: Option<Turn>): (State, Option<Error>)
  {
    if turn.None? || !turn.value.user then (s, None)
    else if turn.value.ident.None? || !(1 <= |turn.value.ident.value| <= IDENT_MAX) then (s, Some(ProtocolError))
    else
      var ident := turn.value.ident.value;
      if ident !in s.order && |s.order| >= TURNS_MAX then (s, Some(ProtocolError))
      else
        var seen := Seen(s, ident);
        if !done then (if ident in s.final then seen else seen.(open := seen.open + {ident}), None)
        else if turn.value.transcript.None? || 0 in turn.value.transcript.value then (seen, Some(ProtocolError))
        else
          var text := u.strip(turn.value.transcript.value);
          if ident in s.final then (seen, if s.final[ident] != text then Some(ProtocolError) else None)
          else Finalized(seen, ident, text, u.canonical(text))
  }

  /** The state after a notification, and the error raised if any. */
  function Ingested(u: Unicode, s: State, e: Event): (State, Option<Error>)
  {
    match e
    case SessionError => (s, Some(SessionFailed))
    case Delegation => (s, Some(UnexpectedTurn))
    case Unrelated => (s, None)
    case Delta(text) =>
      if text.None? || 0 in text.value then (s, Some(ProtocolError))
      else
        var pending := s.pending + u.canonical(text.value);
        (s.(pending := pending), if |pending| > PENDING_MAX then Some(ProtocolError) else None)
    case TurnCreated(turn) => TurnIngested(u, s, false, turn)
    case TurnDone(turn) => TurnIngested(u, s, true, turn)
  }

  predicate IsReady(s: State)
  {
    Joined(s.order, s.final) != [] && s.open == {} && s.pending == []
  }

  // ---------------------------------------------------------------- the collector

  class TranscriptCollector {
    const unicode: Unicode
    var order: seq<Text>
    var final: map<Text, Text>
    var openTurns: set<Text>
    var pendingText: Text

    function Value(): State
      reads this
    {
      State(order, final, openTurns, pendingText)
    }

    constructor (unicode: Unicode)
      ensures Value() == START && this.unicode == unicode
    {
      this.unicode := unicode;
      order, final, openTurns, pendingText := [], map[], {}, [];
    }

    method Ingest(event: Event) returns (error: Option<Error>)
      modifies this
      ensures (Value(), error) == Ingested(unicode, old(Value()), event)
    {
      hide Joined, BytesOf, Consumed;
      error := None;
      match event
      case SessionError =>
        return Some(SessionFailed);
      case Delegation =>
        return Some(UnexpectedTurn);
      case Unrelated =>
      case Delta(text) =>
        if text.None? || 0 in text.value {
          return Some(ProtocolError);
        }
        pendingText := pendingText + unicode.canonical(text.value);
        if |pendingText| > PENDING_MAX {
          return Some(ProtocolError);
        }
      case TurnCreated(turn) =>
        error := IngestTurn(false, turn);
      case TurnDone(turn) =>
        error := IngestTurn(true, turn);
    }

    method IngestTurn(done: bool, turn: Option<Turn>) returns (error: Option<Error>)
      modifies this
      ensures (Value(), error) == TurnIngested(unicode, old(Value()), done, turn)
    {
      hide Joined, BytesOf, Consumed;
      if turn.None? || !turn.value.user {
        return None;
      }
      if turn.value.ident.None? || !(1 <= |turn.value.ident.value| <= IDENT_MAX) {
        return Some(ProtocolError);
      }
      var ident := turn.value.ident.value;
      if ident !in order {
        if |order| >= TURNS_MAX {
          return Some(ProtocolError);
        }
        order := order + [ident];
      }
      if !done {
        if ident !in final {
          openTurns := openTurns + {ident};
        }
        return None;
      }
      if turn.value.transcript.None? || 0 in turn.value.transcript.value {
        return Some(ProtocolError);
      }
      var text := unicode.strip(turn.value.transcript.value);
      if ident in final {
        return if final[ident] != text then Some(ProtocolError) else None;
      }
      error := Finalize(ident, text);
    }

    method Finalize(ident: Text, text: Text) returns (error: Option<Error>)
      modifies this
      ensures (Value(), error) == Finalized(old(Value()), ident, text, unicode.canonical(text))
    {
      hide BytesOf, Joined;
      var normalized := unicode.canonical(text);
      assert pendingText[|pendingText|..] == [];
      if pendingText != [] {
        if normalized != [] && normalized <= pendingText {
          pendingText := pendingText[|normalized|..];
        } else if pendingText <= normalized {
          pendingText := [];
        } else {
          return Some(Inconsistent);
        }
      }
      final := final[ident := text];
      openTurns := openTurns - {ident};
      match BytesOf(TextSoFar())
      case None => error := Some(NotEncodable);
      case Some(n) => error := if n > TRANSCRIPT_BYTES_MAX then Some(TooLong) else None;
    }

    function TextSoFar(): Text
      reads this
    {
      Joined(order, final)
    }

    predicate Ready()
      reads this
      ensures Ready() <==> IsReady(Value())
    {
      TextSoFar() != [] && openTurns == {} && pendingText == []
    }
  }

  // ---------------------------------------------------------------- runs

  /** The state after notifications none of which raised an error. */
  function Run(u: Unicode, events: seq<Event>): Option<State>
  {
    if events == [] then Some(START)
    else
      match Run(u, events[..|events| - 1])
      case None => None
      case Some(s) =>
        var (next, error) := Ingested(u, s, events[|events| - 1]);
        if error.None? then Some(next) else None
  }

  /** The text a notification brings. */
  function Brings(u: Unicode, e: Event): Text
  {
    if e.Delta? && e.text.Some? then u.canonical(e.text.value) else []
  }

  /** The canonical text of all deltas so far. */
  function Observed(u: Unicode, events: seq<Event>): Text
  {
    if events == [] then []
    else
      Observed(u, events[..|events| - 1]) + Brings(u, events[|events| - 1])
  }

  /** The part of the observed text that a turn's final accounts for. */
  datatype Cover = Cover(ident: Text, part: Text)

  /** What a notification that raises no error covers: something only when it is a turn's first final. */
  function CoverOf(u: Unicode, s: State, e: Event): seq<Cover>
  {
    if !e.TurnDone? || e.turn.None? || !e.turn.value.user || e.turn.value.ident.None? then []
    else if e.turn.value.ident.value in s.final || e.turn.value.transcript.None? then []
    else
      match Consumed(s.pending, u.canonical(u.strip(e.turn.value.transcript.value)))
      case None => []
      case Some(part) => [Cover(e.turn.value.ident.value, part)]
  }

  /** One cover for each final, in the order the finals arrived. */
  function Covers(u: Unicode, events: seq<Event>): seq<Cover>
  {
    if events == [] then []
    else
      var front := events[..|events| - 1];
      match Run(u, front)
      case None => []
      case Some(s) => Covers(u, front) + CoverOf(u, s, events[|events| - 1])
  }

  function Parts(covers: seq<Cover>): Text
  {
    if covers == [] then [] else Parts(covers[..|covers| - 1]) + covers[|covers| - 1].part
  }

  // ---------------------------------------------------------------- what every run keeps

  predicate Distinct(order: seq<Text>)
  {
    forall i, j :: 0 <= i < j < |order| ==> order[i] != order[j]
  }

  /** The turns seen are, each once, those still open and those with a final text. */
  ghost predicate Tracked(s: State)
  {
    && Distinct(s.order) && |s.order| <= TURNS_MAX
    && (forall t :: t in s.order <==> t in s.open || t in s.final)
    && (forall t :: t in s.open ==> t !in s.final)
  }

  predicate Bounded(s: State)
  {
    |s.pending| <= PENDING_MAX
    && BytesOf(Joined(s.order, s.final)).Some? && BytesOf(Joined(s.order, s.final)).value <= TRANSCRIPT_BYTES_MAX
  }

  ghost predicate HasCover(covers: seq<Cover>, t: Text)
  {
    exists i :: 0 <= i < |covers| && covers[i].ident == t
  }

  /** Each final has exactly one cover, a beginning of its canonical text. */
  ghost predicate Covered(u: Unicode, s: State, covers: seq<Cover>)
  {
    && (forall i :: 0 <= i < |covers| ==>
          covers[i].ident in s.final && covers[i].part <= u.canonical(s.final[covers[i].ident]))
    && (forall i, j :: 0 <= i < j < |covers| ==> covers[i].ident != covers[j].ident)
    && (forall t :: t in s.final ==> HasCover(covers, t))
  }

  lemma HasCoverSnoc(covers: seq<Cover>, c: Cover, t: Text)
    ensures HasCover(covers + [c], t) <==> HasCover(covers, t) || t == c.ident
  {
    var all := covers + [c];
    assert all[|covers|] == c;
    if HasCover(covers, t) {
      var i :| 0 <= i < |covers| && covers[i].ident == t;
      assert all[i].ident == t;
    }
  }

  lemma TurnIsTracked(u: Unicode, s: State, done: bool, turn: Option<Turn>)
    requires Tracked(s) && TurnIngested(u, s, done, turn).1.None?
    ensures Tracked(TurnIngested(u, s, done, turn).0)
  {
    hide Joined, BytesOf, Consumed;
  }

  lemma JoinedWithoutFinal(order: seq<Text>, final: map<Text, Text>, ident: Text)
    requires ident !in final
    ensures Joined(order + [ident], final) == Joined(order, final)
  {
    assert (order + [ident])[..|order|] == order;
  }

  /** A final that does not fit the transcript raises, so the joined text only changes within bounds. */
  lemma TurnIsBounded(u: Unicode, s: State, done: bool, turn: Option<Turn>)
    requires Tracked(s) && Bounded(s) && TurnIngested(u, s, done, turn).1.None?
    ensures Bounded(TurnIngested(u, s, done, turn).0)
  {
    hide BytesOf, Consumed, Distinct, Joined;
    if turn.Some? && turn.value.user && turn.value.ident.Some? && turn.value.ident.value !in s.order {
      JoinedWithoutFinal(s.order, s.final, turn.value.ident.value);
    }
  }

  lemma CoverAdded(u: Unicode, final: map<Text, Text>, s: State, covers: seq<Cover>,
                   ident: Text, text: Text, part: Text)
    requires Covered(u, s, covers) && ident !in s.final && final == s.final[ident := text] && part <= u.canonical(text)
    ensures Covered(u, s.(final := final), covers + [Cover(ident, part)])
  {
    var added := Cover(ident, part);
    forall t
      ensures HasCover(covers + [added], t) <==> HasCover(covers, t) || t == ident
    {
      HasCoverSnoc(covers, added, t);
    }
    forall i | 0 <= i < |covers|
      ensures covers[i].ident != ident
    {
      assert covers[i].ident in s.final;
    }
    hide HasCover;
  }

  /** Each notification adds its cover and nothing else. */
  lemma EventIsCovered(u: Unicode, s: State, e: Event, covers: seq<Cover>)
    requires Covered(u, s, covers) && Ingested(u, s, e).1.None?
    ensures Covered(u, Ingested(u, s, e).0, covers + CoverOf(u, s, e))
  {
    hide Joined, BytesOf, Consumed;
    var next, added := Ingested(u, s, e).0, CoverOf(u, s, e);
    if added == [] {
      assert covers + added == covers;
    } else {
      var ident := e.turn.value.ident.value;
      var text := u.strip(e.turn.value.transcript.value);
      CoverAdded(u, next.final, s, covers, ident, text, added[0].part);
    }
  }

  /** A delta adds to the pending text; a cover's part is taken from its front. */
  lemma PendingMoves(u: Unicode, s: State, e: Event)
    requires Ingested(u, s, e).1.None?
    ensures |CoverOf(u, s, e)| <= 1
    ensures CoverOf(u, s, e) == [] ==> Ingested(u, s, e).0.pending == s.pending + Brings(u, e)
    ensures CoverOf(u, s, e) != [] ==>
      Brings(u, e) == [] && s.pending == CoverOf(u, s, e)[0].part + Ingested(u, s, e).0.pending
  {
    hide Joined, BytesOf, Consumed;
    if !e.Delta? {
      assert s.pending + [] == s.pending;
    }
  }

  /** The text observed is the parts covered, in order, followed by the text still pending. */
  lemma EventIsAccounted(u: Unicode, s: State, e: Event, observed: Text, covers: seq<Cover>)
    requires observed == Parts(covers) + s.pending && Ingested(u, s, e).1.None?
    ensures observed + Brings(u, e) == Parts(covers + CoverOf(u, s, e)) + Ingested(u, s, e).0.pending
  {
    hide Ingested, CoverOf, Brings;
    PendingMoves(u, s, e);
    var added := CoverOf(u, s, e);
    if added == [] {
      assert covers + added == covers;
    } else {
      assert (covers + added)[..|covers|] == covers && (covers + added)[|covers|] == added[0];
    }
  }

  // ---------------------------------------------------------------- the laws of every run

  lemma StartIsLawful(u: Unicode)
    ensures Tracked(START) && Bounded(START) && Covered(u, START, []) && Parts([]) + START.pending == []
  {
  }

  lemma EventIsTracked(u: Unicode, s: State, e: Event)
    requires Tracked(s) && Bounded(s) && Ingested(u, s, e).1.None?
    ensures Tracked(Ingested(u, s, e).0) && Bounded(Ingested(u, s, e).0)
  {
    hide TurnIngested, Joined, BytesOf;
    if e.TurnCreated? {
      TurnIsTracked(u, s, false, e.turn);
      TurnIsBounded(u, s, false, e.turn);
    } else if e.TurnDone? {
      TurnIsTracked(u, s, true, e.turn);
      TurnIsBounded(u, s, true, e.turn);
    }
  }

  /**
   * Over any run that raises nothing: the turns are disjointly open or final, each final has one
   * cover, and the observed text is the covers' parts in order of arrival, then the pending text.
   */
  lemma {:induction false} RunIsAccounted(u: Unicode, events: seq<Event>)
    requires Run(u, events).Some?
    ensures
      var s := Run(u, events).value;
      Tracked(s) && Bounded(s) && Covered(u, s, Covers(u, events))
      && Observed(u, events) == Parts(Covers(u, events)) + s.pending
  {
    if events == [] {
      StartIsLawful(u);
    } else {
      hide Tracked, Bounded, Covered, Ingested, Parts, CoverOf;
      var front, e := events[..|events| - 1], events[|events| - 1];
      RunIsAccounted(u, front);
      var s := Run(u, front).value;
      EventIsTracked(u, s, e);
      EventIsCovered(u, s, e, Covers(u, front));
      EventIsAccounted(u, s, e, Observed(u, front), Covers(u, front));
    }
  }

  /** A transcript is ready only when every turn seen is final and every delta is covered. */
  lemma ReadyIsComplete(u: Unicode, events: seq<Event>)
    requires Run(u, events).Some? && IsReady(Run(u, events).value)
    ensures forall t :: t in Run(u, events).value.order <==> t in Run(u, events).value.final
    ensures Observed(u, events) == Parts(Covers(u, events))
    ensures Covered(u, Run(u, events).value, Covers(u, events))
  {
    hide Run, Observed, Covers, Covered, Parts, Bounded, Joined;
    RunIsAccounted(u, events);
    assert Parts(Covers(u, events)) + [] == Parts(Covers(u, events));
  }

  lemma RepeatIngested(u: Unicode, s: State, e: Event)
    requires !e.Delta? && Ingested(u, s, e).1.None?
    ensures Ingested(u, Ingested(u, s, e).0, e) == (Ingested(u, s, e).0, None)
  {
    hide Joined, BytesOf, Consumed;
    var next := Ingested(u, s, e).0;
    if (e.TurnCreated? || e.TurnDone?) && e.turn.Some? && e.turn.value.ident.Some? && e.TurnCreated? {
      assert next.open + {e.turn.value.ident.value} == next.open || e.turn.value.ident.value !in next.open;
    }
  }

  /** A notification repeated at once changes nothing more and raises nothing, unless it is a delta. */
  lemma RepeatedTurnIgnored(u: Unicode, events: seq<Event>, e: Event)
    requires !e.Delta? && Run(u, events + [e]).Some?
    ensures Run(u, events + [e, e]) == Run(u, events + [e])
  {
    hide Joined, BytesOf, Consumed;
    assert (events + [e])[..|events|] == events;
    assert (events + [e, e])[..|events| + 1] == events + [e];
    var s := Run(u, events).value;
    RepeatIngested(u, s, e);
  }
}
