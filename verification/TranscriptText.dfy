/** What the collected transcript says, when it is refused, and what the collector remembers of the turns. */
module TranscriptText {
  import opened Bytes
  import opened Transcript
  import Utf8

  // ---------------------------------------------------------------- the joined text

  /** The final text of a turn, empty while it has none. */
  function Said(final: map<Text, Text>, ident: Text): Text
  {
    if ident in final then final[ident] else []
  }

  /** The room that the texts of these turns take, with a space after each that is not empty. */
  function Room(order: seq<Text>, final: map<Text, Text>): nat
  {
    if order == [] then 0
    else
      var said := Said(final, order[|order| - 1]);
      Room(order[..|order| - 1], final) + if said == [] then 0 else |said| + 1
  }

  /** The transcript is as long as its texts and one space between each two. */
  lemma {:induction false} JoinedLength(order: seq<Text>, final: map<Text, Text>)
    ensures |Joined(order, final)| == if Room(order, final) == 0 then 0 else Room(order, final) - 1
    ensures Room(order, final) != 1
    decreases |order|
  {
    if order != [] {
      JoinedLength(order[..|order| - 1], final);
    }
  }

  /** The words stand at this place of the text, with a space in front of them unless they begin it. */
  predicate StandsAt(text: Text, words: Text, at: nat)
  {
    at + |words| <= |text| && text[at..at + |words|] == words && (at > 0 ==> text[at - 1] == SPACE)
  }

  lemma StandsInLonger(front: Text, text: Text, words: Text, at: nat)
    requires front <= text && StandsAt(front, words, at)
    ensures StandsAt(text, words, at)
  {
    assert text[..|front|] == front;
    assert forall k :: 0 <= k < |front| ==> text[k] == front[k];
    assert text[at..at + |words|] == front[at..at + |words|];
  }

  lemma StandsAtEnd(front: Text, words: Text)
    ensures front == [] ==> StandsAt(words, words, 0)
    ensures StandsAt(front + [SPACE] + words, words, |front| + 1) && front <= front + [SPACE] + words
  {
    var text := front + [SPACE] + words;
    assert text[|front| + 1..] == words && text[|front|] == SPACE;
    assert text[..|front|] == front;
  }

  /** The last turn's text goes to the end, with a space before it if anything precedes it. */
  lemma JoinedEnds(order: seq<Text>, final: map<Text, Text>)
    requires order != []
    ensures Joined(order[..|order| - 1], final) <= Joined(order, final)
    ensures Said(final, order[|order| - 1]) != [] ==>
      StandsAt(Joined(order, final), Said(final, order[|order| - 1]), Room(order[..|order| - 1], final))
  {
    JoinedLength(order[..|order| - 1], final);
    StandsAtEnd(Joined(order[..|order| - 1], final), Said(final, order[|order| - 1]));
    hide Room, StandsAt;
  }

  /**
   * Every turn's text stands in the transcript, in its place after those of the turns before it, and with
   * a space in front of it unless it is the first.
   */
  lemma {:induction false} JoinedHolds(order: seq<Text>, final: map<Text, Text>, i: nat)
    requires i < |order| && Said(final, order[i]) != []
    ensures StandsAt(Joined(order, final), Said(final, order[i]), Room(order[..i], final))
    decreases |order|
  {
    hide Joined, Room, Said, StandsAt;
    var last := |order| - 1;
    JoinedEnds(order, final);
    if i < last {
      assert order[..last][..i] == order[..i];
      JoinedHolds(order[..last], final, i);
      StandsInLonger(Joined(order[..last], final), Joined(order, final),
                     Said(final, order[i]), Room(order[..i], final));
    }
  }

  // ---------------------------------------------------------------- its size

  lemma {:induction false} EncodeConcat(a: Text, b: Text)
    requires Utf8.AllScalar(a) && Utf8.AllScalar(b)
    ensures Utf8.AllScalar(a + b) && Utf8.EncodeAll(a + b) == Utf8.EncodeAll(a) + Utf8.EncodeAll(b)
    decreases |a|
  {
    hide Utf8.IsScalar, Utf8.Encode;
    if a == [] {
      assert a + b == b;
    } else {
      assert (a + b)[1..] == a[1..] + b;
      EncodeConcat(a[1..], b);
    }
  }

  lemma ScalarConcat(a: Text, b: Text)
    ensures Utf8.AllScalar(a + b) <==> Utf8.AllScalar(a) && Utf8.AllScalar(b)
  {
    hide Utf8.IsScalar;
    if Utf8.AllScalar(a + b) {
      assert forall k :: 0 <= k < |a| ==> a[k] == (a + b)[k];
      assert forall k :: 0 <= k < |b| ==> b[k] == (a + b)[|a| + k];
    }
  }

  /** Every text can be encoded: none has a surrogate in it. */
  predicate Encodable(order: seq<Text>, final: map<Text, Text>)
  {
    forall i :: 0 <= i < |order| ==> Utf8.AllScalar(Said(final, order[i]))
  }

  /** The bytes that the texts of these turns take, with a space after each that is not empty. */
  function Weight(order: seq<Text>, final: map<Text, Text>): nat
    requires Encodable(order, final)
  {
    if order == [] then 0
    else
      var said := Said(final, order[|order| - 1]);
      Weight(order[..|order| - 1], final) + if said == [] then 0 else |Utf8.EncodeAll(said)| + 1
  }

  lemma OneSpace()
    ensures Utf8.AllScalar([SPACE]) && |Utf8.EncodeAll([SPACE])| == 1
  {
    assert [SPACE][1..] == [];
  }

  lemma NoText()
    ensures Utf8.AllScalar([]) && Utf8.EncodeAll([]) == []
  {
  }

  lemma EncodableFront(order: seq<Text>, final: map<Text, Text>)
    requires order != []
    ensures Encodable(order, final) <==>
      Encodable(order[..|order| - 1], final) && Utf8.AllScalar(Said(final, order[|order| - 1]))
  {
    hide Utf8.AllScalar, Said;
  }

  /** The transcript can be encoded when every text can, and takes their bytes and one for each space between. */
  lemma {:induction false} JoinedBytes(order: seq<Text>, final: map<Text, Text>)
    ensures Utf8.AllScalar(Joined(order, final)) <==> Encodable(order, final)
    ensures Encodable(order, final) ==>
      |Utf8.EncodeAll(Joined(order, final))| == (if Weight(order, final) == 0 then 0 else Weight(order, final) - 1)
      && (Weight(order, final) == 0 <==> Joined(order, final) == [])
    decreases |order|
  {
    NoText();
    if order != [] {
      hide Utf8.AllScalar, Utf8.EncodeAll, Encodable;
      var front, said := Joined(order[..|order| - 1], final), Said(final, order[|order| - 1]);
      JoinedBytes(order[..|order| - 1], final);
      EncodableFront(order, final);
      if said != [] && front != [] {
        OneSpace();
        ScalarConcat(front, [SPACE]);
        ScalarConcat(front + [SPACE], said);
        if Encodable(order, final) {
          EncodeConcat(front, [SPACE]);
          EncodeConcat(front + [SPACE], said);
        }
      }
    }
  }

  lemma {:induction false} SomethingSaid(order: seq<Text>, final: map<Text, Text>)
    ensures Joined(order, final) != [] <==> exists i :: 0 <= i < |order| && Said(final, order[i]) != []
    decreases |order|
  {
    if order != [] {
      SomethingSaid(order[..|order| - 1], final);
    }
  }

  /** A transcript is ready when some turn has said something, none is open and no text is pending. */
  lemma ReadyIff(s: State)
    ensures IsReady(s) <==>
      s.open == {} && s.pending == [] && exists i :: 0 <= i < |s.order| && Said(s.final, s.order[i]) != []
  {
    SomethingSaid(s.order, s.final);
  }

  // ---------------------------------------------------------------- what is refused

  /** Notifications that are no turn of the user's. */
  lemma OtherErrors(u: Unicode, s: State, e: Event)
    requires !e.TurnCreated? && !e.TurnDone?
    ensures
      var error := Ingested(u, s, e).1;
      && (error == Some(SessionFailed) <==> e.SessionError?)
      && (error == Some(UnexpectedTurn) <==> e.Delegation?)
      && (error == Some(ProtocolError) <==>
            e.Delta? && (e.text.None? || 0 in e.text.value || |s.pending| + |u.canonical(e.text.value)| > 4096))
      && (error.None? || error.value in {SessionFailed, UnexpectedTurn, ProtocolError})
  {
  }

  /** A turn that is not the user's is ignored; one of the user's needs an id of 1 to 256 characters. */
  lemma TurnErrors(u: Unicode, s: State, done: bool, turn: Option<Turn>)
    ensures
      var e := if done then TurnDone(turn) else TurnCreated(turn);
      && (turn.None? || !turn.value.user ==> Ingested(u, s, e) == (s, None))
      && (turn.Some? && turn.value.user && (turn.value.ident.None? || !(1 <= |turn.value.ident.value| <= 256)) ==>
            Ingested(u, s, e) == (s, Some(ProtocolError)))
  {
    hide Finalized;
  }

  /** A turn of the user's that begins is refused only as the thirty-third. */
  lemma CreatedErrors(u: Unicode, s: State, ident: Text, transcript: Option<Text>)
    requires 1 <= |ident| <= 256
    ensures
      var error := Ingested(u, s, TurnCreated(Some(Turn(true, Some(ident), transcript)))).1;
      error == if ident !in s.order && |s.order| >= 32 then Some(ProtocolError) else None
  {
  }

  /** What comes of the end of a turn of the user's. */
  function Ended(u: Unicode, s: State, ident: Text, transcript: Option<Text>): (State, Option<Error>)
  {
    Ingested(u, s, TurnDone(Some(Turn(true, Some(ident), transcript))))
  }

  /** The turn is not a thirty-third one, and it comes with a text without a NUL. */
  predicate Usable(s: State, ident: Text, transcript: Option<Text>)
  {
    (ident in s.order || |s.order| < 32) && transcript.Some? && 0 !in transcript.value
  }

  /** The words and the pending text begin alike. */
  predicate Alike(pending: Text, spoken: Text)
  {
    pending == [] || (spoken != [] && spoken <= pending) || pending <= spoken
  }

  /**
   * The end of a turn breaks the protocol if it is not usable, or if the turn ended before with another
   * text. If it ended with this one, nothing is wrong.
   */
  lemma DoneErrors(u: Unicode, s: State, ident: Text, transcript: Option<Text>)
    requires 1 <= |ident| <= 256
    ensures Ended(u, s, ident, transcript).1 == Some(ProtocolError) <==>
      !Usable(s, ident, transcript) || (ident in s.final && s.final[ident] != u.strip(transcript.value))
    ensures ident in s.final ==> Ended(u, s, ident, transcript).1 in {None, Some(ProtocolError)}
  {
    hide Joined, BytesOf, Consumed;
  }

  /** What a turn adds to the state when it ends for the first time, even when the transcript is then refused. */
  lemma FirstDoneKept(u: Unicode, s: State, ident: Text, transcript: Option<Text>)
    requires 1 <= |ident| <= 256 && Usable(s, ident, transcript) && ident !in s.final
    requires Alike(s.pending, u.canonical(u.strip(transcript.value)))
    ensures
      var next := Ended(u, s, ident, transcript).0;
      && next.final == s.final[ident := u.strip(transcript.value)]
      && next.order == if ident in s.order then s.order else s.order + [ident]
  {
    hide Joined, BytesOf;
  }

  /**
   * A turn that ends for the first time is refused if its text and the pending one do not begin alike, or
   * if the transcript then cannot be encoded or takes more than 512 bytes, and for nothing else.
   */
  lemma FirstDoneErrors(u: Unicode, s: State, ident: Text, transcript: Option<Text>)
    requires 1 <= |ident| <= 256 && Usable(s, ident, transcript) && ident !in s.final
    ensures
      var (next, error) := Ended(u, s, ident, transcript);
      error == if !Alike(s.pending, u.canonical(u.strip(transcript.value))) then Some(Inconsistent)
               else if !Encodable(next.order, next.final) then Some(NotEncodable)
               else if Weight(next.order, next.final) > 512 + 1 then Some(TooLong)
               else None
  {
    var next := Ended(u, s, ident, transcript).0;
    JoinedBytes(next.order, next.final);
    hide Joined, Encodable, Weight, Utf8.AllScalar, Utf8.EncodeAll;
  }

  // ---------------------------------------------------------------- what a run remembers

  /** A notification of a turn of the user's, begun or ended. */
  predicate IsTurn(e: Event)
  {
    (e.TurnCreated? || e.TurnDone?) && e.turn.Some? && e.turn.value.user && e.turn.value.ident.Some?
  }

  /** The turns in the order in which they are first heard of. */
  function Appearances(events: seq<Event>): seq<Text>
  {
    if events == [] then []
    else
      var front, e := Appearances(events[..|events| - 1]), events[|events| - 1];
      if IsTurn(e) && e.turn.value.ident.value !in front then front + [e.turn.value.ident.value] else front
  }

  /** The notification says that this turn ended, with a text that is this one once stripped. */
  predicate Ends(u: Unicode, e: Event, ident: Text, text: Text)
  {
    && e.TurnDone? && IsTurn(e) && e.turn.value.ident.value == ident
    && e.turn.value.transcript.Some? && u.strip(e.turn.value.transcript.value) == text
  }

  ghost predicate EndedSo(u: Unicode, events: seq<Event>, ident: Text, text: Text)
  {
    exists k :: 0 <= k < |events| && Ends(u, events[k], ident, text)
  }

  predicate KeptFor(u: Unicode, e: Event, s: State)
  {
    e.TurnDone? && IsTurn(e) ==>
      var ident := e.turn.value.ident.value;
      ident in s.final && Ends(u, e, ident, s.final[ident])
  }

  /** The text kept for a turn is the one it ended with, and every turn that ended has one. */
  ghost predicate Keeps(u: Unicode, events: seq<Event>, s: State)
  {
    && (forall t :: t in s.final ==> EndedSo(u, events, t, s.final[t]))
    && (forall k :: 0 <= k < |events| ==> KeptFor(u, events[k], s))
  }

  lemma EndedSoLater(u: Unicode, events: seq<Event>, e: Event, ident: Text, text: Text)
    ensures EndedSo(u, events, ident, text) || Ends(u, e, ident, text) ==> EndedSo(u, events + [e], ident, text)
  {
    hide Ends;
    var all := events + [e];
    assert all[|events|] == e;
    if EndedSo(u, events, ident, text) {
      var k :| 0 <= k < |events| && Ends(u, events[k], ident, text);
      assert all[k] == events[k];
    }
  }

  /** A notification without an error keeps every text there is, and adds only the text of the turn it ends. */
  lemma FinalsGrow(u: Unicode, s: State, e: Event)
    requires Ingested(u, s, e).1.None?
    ensures
      var next := Ingested(u, s, e).0;
      && (forall t :: t in s.final ==> t in next.final && next.final[t] == s.final[t])
      && (forall t :: t in next.final && t !in s.final ==> Ends(u, e, t, next.final[t]))
      && KeptFor(u, e, next)
      && next.order == if IsTurn(e) && e.turn.value.ident.value !in s.order
                       then s.order + [e.turn.value.ident.value] else s.order
  {
    hide Joined, BytesOf, Consumed;
  }

  lemma EventKeeps(u: Unicode, events: seq<Event>, s: State, e: Event)
    requires Keeps(u, events, s) && Ingested(u, s, e).1.None?
    ensures Keeps(u, events + [e], Ingested(u, s, e).0)
  {
    hide Ingested, EndedSo, Ends, IsTurn;
    FinalsGrow(u, s, e);
    var next := Ingested(u, s, e).0;
    forall t | t in next.final
      ensures EndedSo(u, events + [e], t, next.final[t])
    {
      EndedSoLater(u, events, e, t, next.final[t]);
    }
    forall k | 0 <= k < |events| + 1
      ensures KeptFor(u, (events + [e])[k], next)
    {
      assert k < |events| ==> KeptFor(u, events[k], s);
    }
  }

  /**
   * Over any run that raises nothing the turns are in the order in which they were first heard of, and the
   * texts are those with which the turns ended, one for each that did.
   */
  lemma {:induction false} RunRemembers(u: Unicode, events: seq<Event>)
    requires Run(u, events).Some?
    ensures Run(u, events).value.order == Appearances(events) && Keeps(u, events, Run(u, events).value)
    decreases |events|
  {
    if events != [] {
      hide Ingested, Keeps, IsTurn;
      var front, e := events[..|events| - 1], events[|events| - 1];
      RunRemembers(u, front);
      FinalsGrow(u, Run(u, front).value, e);
      EventKeeps(u, front, Run(u, front).value, e);
      assert front + [e] == events;
    }
  }
}
