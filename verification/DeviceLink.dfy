/**
 * Polling for a device link, as in components/app_controller/app_controller.c, against RFC 8628,
 * sections 3.3 to 3.5. Times are microseconds of a clock that never goes back.
 */
module DeviceLink {
  import opened Bytes

  const SECOND := 1_000_000

  /** What one request to the token endpoint comes to. A failure carries the HTTP status and any Retry-After. */
  datatype Answer =
    | Failed(http: int, retryAfter: uint32)
    | Pending
    | SlowDown(retry: uint32)
    | Success
    | Denied
    | Expired
    | AlreadyDelivered
    | Unexpected

  predicate Terminal(a: Answer)
  {
    !a.Failed? && !a.Pending? && !a.SlowDown?
  }

  function Max(a: int, b: int): int
  {
    if a < b then b else a
  }

  function Min(a: int, b: int): int
  {
    if a < b then a else b
  }

  /** The interval in force after an answer, in the 32 bits it is kept in. */
  function After(interval: uint32, a: Answer): uint32
  {
    if a.SlowDown? then (interval + Max(5, a.retry)) % TWO_32 else interval
  }

  /** A request that was sent: in which link session, when the wait began, and what came of it. */
  datatype Poll = Poll(session: nat, since: int, asked: int, answered: int,
                       interval: uint32, deadline: int, answer: Answer)

  // ---------------------------------------------------------------- what a history of requests must look like

  /** The interval has passed since the last answer (or the code's arrival), and the code is still alive. */
  predicate Timely(p: Poll)
  {
    p.since + p.interval * SECOND <= p.asked <= p.answered && p.asked / SECOND < p.deadline
  }

  /** Consecutive requests; within a session the first one's answer decides how the second is made. */
  predicate Follows(p: Poll, q: Poll)
  {
    && p.session <= q.session && p.answered <= q.since
    && (p.session == q.session ==>
          !Terminal(p.answer) && q.since == p.answered && q.interval == After(p.interval, p.answer)
          && q.deadline == p.deadline)
  }

  ghost predicate Orderly(polls: seq<Poll>)
  {
    && (forall i :: 0 <= i < |polls| ==> Timely(polls[i]))
    && (forall i :: 0 < i < |polls| ==> Follows(polls[i - 1], polls[i]))
  }

  lemma OrderlySnoc(polls: seq<Poll>, p: Poll)
    requires Orderly(polls) && Timely(p) && (polls != [] ==> Follows(polls[|polls| - 1], p))
    ensures Orderly(polls + [p])
  {
    hide Timely, Follows;
  }

  /** Requests for one code are at least the interval then in force apart, answer to request. */
  lemma {:induction false} PollsApart(polls: seq<Poll>, i: nat, j: nat)
    requires Orderly(polls) && i < j < |polls|
    ensures polls[i].session <= polls[j].session && polls[i].answered <= polls[j].since
    ensures polls[i].session == polls[j].session ==>
      polls[i].answered + After(polls[i].interval, polls[i].answer) * SECOND <= polls[j].asked
  {
    hide After;
    assert Timely(polls[j]) && Follows(polls[j - 1], polls[j]);
    if i < j - 1 {
      PollsApart(polls, i, j - 1);
      assert Timely(polls[j - 1]);
    }
  }

  /** A code whose request had a final answer is never asked for again. */
  lemma {:induction false} TerminalIsLast(polls: seq<Poll>, i: nat, j: nat)
    requires Orderly(polls) && i < j < |polls|
    requires polls[i].answer in {Success, Denied, Expired, AlreadyDelivered, Unexpected}
    ensures polls[i].session < polls[j].session
  {
    assert Follows(polls[i], polls[i + 1]);
    if i + 1 < j {
      PollsApart(polls, i + 1, j);
    }
  }

  predicate Grows(p: Poll)
  {
    p.answer.SlowDown? ==> p.interval + Max(5, p.answer.retry) < TWO_32
  }

  /** None of the answers from `i` up to `j` overflows the interval. */
  ghost predicate NoWrap(polls: seq<Poll>, i: nat, j: nat)
    requires i <= j <= |polls|
  {
    forall k :: i <= k < j ==> Grows(polls[k])
  }

  /** A slow-down raises the interval by five seconds or more, exactly when 32 bits can hold the sum. */
  lemma SlowDownGrows(p: Poll)
    requires p.answer.SlowDown?
    ensures Grows(p) <==> After(p.interval, p.answer) >= p.interval + 5
    ensures !Grows(p) ==> After(p.interval, p.answer) < p.interval
  {
    var sum := p.interval + Max(5, p.answer.retry);
    if sum >= TWO_32 {
      DivUnique(sum, TWO_32, 1, sum - TWO_32);
    }
  }

  lemma IntervalAfter(p: Poll)
    requires Grows(p)
    ensures After(p.interval, p.answer) >= p.interval + if p.answer.SlowDown? then 5 else 0
  {
    if p.answer.SlowDown? {
      SlowDownGrows(p);
    }
  }

  function SlowDowns(polls: seq<Poll>): nat
  {
    if polls == [] then 0
    else SlowDowns(polls[..|polls| - 1]) + if polls[|polls| - 1].answer.SlowDown? then 1 else 0
  }

  /** Within a session the interval never decreases, and every slow-down adds at least five seconds. */
  lemma {:induction false} IntervalNeverShrinks(polls: seq<Poll>, i: nat, j: nat)
    requires Orderly(polls) && i < j < |polls| && polls[i].session == polls[j].session && NoWrap(polls, i, j)
    ensures polls[j].interval >= polls[i].interval + 5 * SlowDowns(polls[i..j])
  {
    hide After, Timely;
    assert Follows(polls[j - 1], polls[j]) && Grows(polls[j - 1]);
    PollsApart(polls, i, j);
    if i < j - 1 {
      PollsApart(polls, i, j - 1);
      IntervalNeverShrinks(polls, i, j - 1);
    } else {
      assert polls[i..j - 1] == [];
    }
    assert polls[i..j][..j - 1 - i] == polls[i..j - 1];
    IntervalAfter(polls[j - 1]);
  }

  // ---------------------------------------------------------------- the controller

  datatype DeviceCode = DeviceCode(code: seq<byte>, expiresIn: uint32, interval: uint32)

  lemma SecondsGrow(a: int, b: int)
    requires a <= b
    ensures a / SECOND <= b / SECOND
  {
  }

  lemma FullSeconds(t: int, n: int)
    ensures (t + n * SECOND) / SECOND == t / SECOND + n
  {
    DivUnique(t + n * SECOND, SECOND, t / SECOND + n, t % SECOND);
  }

  /** A request that is due before the deadline is due because the interval has passed. */
  lemma DueIsTimely(next: int, checked: int, since: int, interval: uint32, deadline: int)
    requires since + interval * SECOND <= next || deadline <= next / SECOND
    requires next <= checked && checked / SECOND < deadline
    ensures since + interval * SECOND <= checked
  {
    SecondsGrow(next, checked);
  }

  /** The greatest of five seconds, the interval and, from a server that is too busy, what it asks for. */
  predicate IsWait(w: int, interval: uint32, answer: Answer)
    requires answer.Failed?
  {
    && w >= 5 && w >= interval && (answer.http == 429 ==> w >= answer.retryAfter)
    && (w == 5 || w == interval || (answer.http == 429 && w == answer.retryAfter))
  }

  class LinkController {
    var deviceCode: seq<byte>
    var deadlineSeconds: int
    var linkIntervalSeconds: uint32
    var nextLinkPollUs: int
    var online: bool
    ghost var clock: int
    ghost var session: nat
    ghost var since: int
    ghost var polls: seq<Poll>

    /** The requests so far are orderly, and the present wait began after the last of them. */
    ghost predicate Recorded()
      reads this
    {
      && Orderly(polls) && 0 <= since <= clock
      && (polls != [] ==> polls[|polls| - 1].session <= session && polls[|polls| - 1].answered <= since)
    }

    /**
     * With a code present the next request is not due before the interval has passed, or else not
     * before the code has expired; and the last request for it, if any, leaves the code alive.
     */
    ghost predicate Valid()
      reads this
    {
      && Recorded()
      && (deviceCode != [] ==> Due())
      && (deviceCode != [] && polls != [] && polls[|polls| - 1].session == session ==>
            Continues(polls[|polls| - 1]))
    }

    ghost predicate Due()
      reads this
    {
      since + linkIntervalSeconds * SECOND <= nextLinkPollUs || deadlineSeconds <= nextLinkPollUs / SECOND
    }

    ghost predicate Continues(last: Poll)
      reads this
    {
      && !Terminal(last.answer) && since == last.answered
      && linkIntervalSeconds == After(last.interval, last.answer) && deadlineSeconds == last.deadline
    }

    constructor ()
      ensures Valid() && polls == [] && deviceCode == [] && clock == 0
    {
      deviceCode, deadlineSeconds, linkIntervalSeconds, nextLinkPollUs, online := [], 0, 0, 0, false;
      clock, session, since, polls := 0, 0, 0, [];
    }

    /** `clear_public_link`, also run by unlinking, relinking, a new time zone and shutting down. */
    method ClearPublicLink()
      requires Recorded()
      modifies `deviceCode, `deadlineSeconds, `linkIntervalSeconds, `nextLinkPollUs
      ensures Valid() && deviceCode == [] && nextLinkPollUs == 0
    {
      deviceCode, deadlineSeconds, linkIntervalSeconds, nextLinkPollUs := [], 0, 0, 0;
    }

    method SetOnline(online: bool)
      requires Valid()
      modifies `online
      ensures Valid() && this.online == online
    {
      this.online := online;
    }

    /** `start_device_link`; the reply was parsed at `parsed`, and control returned at `returned`. */
    method StartDeviceLink(timeValid: bool, reply: Option<DeviceCode>, parsed: int, returned: int)
      requires Valid() && clock <= parsed <= returned
      modifies this
      ensures Valid() && polls == old(polls) && online == old(online)
      ensures clock == if online && timeValid then returned else old(clock)
      ensures if !(online && timeValid) then deviceCode == old(deviceCode) && session == old(session)
              else session == old(session) + 1 && deviceCode == match reply case None => [] case Some(d) => d.code
      ensures online && timeValid && reply.Some? ==>
        since == returned && linkIntervalSeconds == reply.value.interval
        && deadlineSeconds == parsed / SECOND + reply.value.expiresIn
        && nextLinkPollUs == returned + reply.value.interval * SECOND
    {
      if !online || !timeValid {
        return;
      }
      ClearPublicLink();
      session, since, clock := session + 1, returned, returned;
      if reply.None? {
        return;
      }
      deviceCode := reply.value.code;
      deadlineSeconds := parsed / SECOND + reply.value.expiresIn;
      linkIntervalSeconds := reply.value.interval;
      nextLinkPollUs := returned + reply.value.interval * SECOND;
    }

    /** The link part of `run_due_actions`; `free` says that nothing before it took the turn. */
    method RunDueActions(free: bool, now: int, checked: int, answer: Answer, returned: int)
      requires Valid() && clock <= now <= checked <= returned
      modifies this
      ensures Valid() && online == old(online) && session == old(session)
      ensures
        var asks := free && online && old(deviceCode) != [] && old(nextLinkPollUs) > 0 && now >= old(nextLinkPollUs)
                    && checked / SECOND < old(deadlineSeconds);
        polls == (if asks then old(polls) + [old(PollNow(checked, answer, returned))] else old(polls))
        && (asks && !Terminal(answer) ==>
              Continued(old(deviceCode), old(deadlineSeconds), old(linkIntervalSeconds), checked, answer, returned))
    {
      if !free || !online {
        return;
      }
      if deviceCode != [] && nextLinkPollUs > 0 && now >= nextLinkPollUs {
        PollDeviceLink(checked, answer, returned);
      }
    }

    /** The code lives on after a request: the interval in force, and when the next one is due. */
    ghost predicate Continued(code: seq<byte>, deadline: int, interval: uint32,
                              checked: int, answer: Answer, returned: int)
      reads this
    {
      && deviceCode == code && deadlineSeconds == deadline && clock == returned
      && Rescheduled(interval, checked, answer, returned)
    }

    /**
     * A request answered is repeated after the interval, which a slow-down has raised. A failed one is
     * repeated after the interval, or five seconds, or what a server that is too busy asks for, whichever
     * is most, or else at the deadline.
     */
    ghost predicate Rescheduled(interval: uint32, checked: int, answer: Answer, returned: int)
      reads this
    {
      && linkIntervalSeconds == (if answer.SlowDown? then (interval + Max(5, answer.retry)) % TWO_32 else interval)
      && (!answer.Failed? ==> nextLinkPollUs == returned + linkIntervalSeconds * SECOND)
      && (answer.Failed? ==>
            var wait := Max(Max(5, interval), if answer.http == 429 then answer.retryAfter else 0);
            nextLinkPollUs == returned + SECOND * Min(wait, deadlineSeconds - checked / SECOND))
    }

    ghost function PollNow(checked: int, answer: Answer, returned: int): Poll
      reads this
    {
      Poll(session, since, checked, returned, linkIntervalSeconds, deadlineSeconds, answer)
    }

    /**
     * `poll_device_link`. A failed request may be set to be repeated too early, at the deadline, but
     * then the check of the deadline stops it.
     */
    method PollDeviceLink(checked: int, answer: Answer, returned: int)
      requires Valid() && online && deviceCode != [] && clock <= checked <= returned && nextLinkPollUs <= checked
      modifies this
      ensures Valid() && online == old(online) && session == old(session)
      ensures checked / SECOND >= old(deadlineSeconds) ==> deviceCode == [] && polls == old(polls)
      ensures checked / SECOND < old(deadlineSeconds) ==>
        && polls == old(polls) + [old(PollNow(checked, answer, returned))]
        && (deviceCode == [] <==> answer in {Success, Denied, Expired, AlreadyDelivered, Unexpected})
      ensures checked / SECOND < old(deadlineSeconds) && !Terminal(answer) ==>
        Continued(old(deviceCode), old(deadlineSeconds), old(linkIntervalSeconds), checked, answer, returned)
      ensures checked / SECOND < old(deadlineSeconds) && answer.Pending? ==>
        linkIntervalSeconds == old(linkIntervalSeconds)
        && nextLinkPollUs == returned + old(linkIntervalSeconds) * 1_000_000
      ensures checked / SECOND < old(deadlineSeconds) && answer.SlowDown? ==>
        var more := if answer.retry > 5 then answer.retry else 5;
        linkIntervalSeconds == (old(linkIntervalSeconds) + more) % TWO_32
        && nextLinkPollUs == returned + linkIntervalSeconds * 1_000_000
      ensures checked / SECOND < old(deadlineSeconds) && answer.Failed? ==>
        var remaining := deadlineSeconds - checked / 1_000_000;
        linkIntervalSeconds == old(linkIntervalSeconds) && deadlineSeconds == old(deadlineSeconds)
        && forall w :: IsWait(w, linkIntervalSeconds, answer) ==>
          nextLinkPollUs == returned + (if w <= remaining then w else remaining) * 1_000_000
    {
      hide Orderly, Timely, Follows;
      var nowSeconds := checked / SECOND;
      if nowSeconds >= deadlineSeconds {
        ClearPublicLink();
        return;
      }
      DueIsTimely(nextLinkPollUs, checked, since, linkIntervalSeconds, deadlineSeconds);
      Remembered(checked, answer, returned);
      polls := polls + [PollNow(checked, answer, returned)];
      since, clock := returned, returned;
      Settle(answer, checked, returned);
    }

    /** What the answer to the request just recorded does. */
    method Settle(answer: Answer, checked: int, returned: int)
      requires Recorded() && deviceCode != [] && polls != [] && since == returned
      requires checked <= returned && checked / SECOND < deadlineSeconds
      requires polls[|polls| - 1].answer == answer && polls[|polls| - 1].answered == returned
      requires polls[|polls| - 1].interval == linkIntervalSeconds && polls[|polls| - 1].deadline == deadlineSeconds
      modifies `deviceCode, `deadlineSeconds, `linkIntervalSeconds, `nextLinkPollUs
      ensures Valid() && (Terminal(answer) <==> deviceCode == [])
      ensures !Terminal(answer) ==>
        deviceCode == old(deviceCode) && deadlineSeconds == old(deadlineSeconds)
        && Rescheduled(old(linkIntervalSeconds), checked, answer, returned)
    {
      hide Orderly, Timely, Follows;
      match answer
      case Failed(http, retryAfter) =>
        var wait := if linkIntervalSeconds < 5 then 5 else linkIntervalSeconds;
        if http == 429 && retryAfter > wait {
          wait := retryAfter;
        }
        var remaining := deadlineSeconds - checked / SECOND;
        if remaining > 0 && wait > remaining {
          wait := remaining;
          FullSeconds(returned, remaining);
          SecondsGrow(checked, returned);
        }
        nextLinkPollUs := returned + wait * SECOND;
      case Pending =>
        nextLinkPollUs := returned + linkIntervalSeconds * SECOND;
      case SlowDown(retry) =>
        linkIntervalSeconds := (linkIntervalSeconds + (if retry < 5 then 5 else retry)) % TWO_32;
        nextLinkPollUs := returned + linkIntervalSeconds * SECOND;
      case _ =>
        ClearPublicLink();
    }

    /** The request about to be sent keeps the history orderly. */
    lemma Remembered(checked: int, answer: Answer, returned: int)
      requires Valid() && deviceCode != [] && checked <= returned
      requires since + linkIntervalSeconds * SECOND <= checked && checked / SECOND < deadlineSeconds
      ensures Orderly(polls + [PollNow(checked, answer, returned)])
    {
      hide Orderly;
      OrderlySnoc(polls, PollNow(checked, answer, returned));
    }
  }

  /**
   * A code that is still alive is asked for again: on the first free turn on line that comes, before the
   * deadline, after the interval, or after the wait that follows a failure.
   */
  method AskedAgain(link: LinkController, now: int, checked: int, answer: Answer, returned: int, w: int,
                    later: int, laterChecked: int, laterAnswer: Answer, laterReturned: int)
    requires link.Valid() && link.clock <= now <= checked <= returned <= later <= laterChecked <= laterReturned
    requires link.online && link.deviceCode != [] && 0 < link.nextLinkPollUs <= now
    requires laterChecked / SECOND < link.deadlineSeconds
    requires answer.Pending? ==> w == link.linkIntervalSeconds
    requires answer.SlowDown? ==>
      w == (link.linkIntervalSeconds + if answer.retry > 5 then answer.retry else 5) % TWO_32
    requires answer.Failed? ==>
      && w >= 5 && w >= link.linkIntervalSeconds && (answer.http == 429 ==> w >= answer.retryAfter)
      && (w == 5 || w == link.linkIntervalSeconds || (answer.http == 429 && w == answer.retryAfter))
    requires answer.Pending? || answer.SlowDown? || answer.Failed?
    requires later >= returned + w * 1_000_000
    modifies link
    ensures link.Valid() && |link.polls| == |old(link.polls)| + 2
    ensures link.polls[|old(link.polls)|].answer == answer && link.polls[|old(link.polls)| + 1].asked == laterChecked
  {
    SecondsGrow(checked, laterChecked);
    link.RunDueActions(true, now, checked, answer, returned);
    link.RunDueActions(true, later, laterChecked, laterAnswer, laterReturned);
  }

  /**
   * The sum of a slow-down can overflow only for an interval of 136 years less five seconds; then the
   * next request follows at once.
   */
  method IntervalWraps() returns (link: LinkController)
    ensures |link.polls| == 2 && link.polls[0].answer == SlowDown(5) && !Grows(link.polls[0])
    ensures link.polls[1].session == link.polls[0].session && link.polls[1].asked == link.polls[0].asked
  {
    link := new LinkController();
    link.SetOnline(true);
    link.StartDeviceLink(true, Some(DeviceCode([1], TWO_32 - 1, TWO_32 - 5)), 0, 0);
    var due := (TWO_32 - 5) * SECOND;
    link.RunDueActions(true, due, due, SlowDown(5), due);
    assert After(TWO_32 - 5, SlowDown(5)) == 0;
    link.RunDueActions(true, due, due, Pending, due);
  }
}
