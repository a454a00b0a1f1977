/**
 * The duplicate-detection and handover protocol of `SingletonHandler`, as
 * specification functions over an environment oracle.
 *
 * Every point where the handler talks to the operating system or to the
 * application's `Singleton` callbacks becomes one answer taken from the
 * front of a stream in `Env`. The result of a run is the trace of
 * observable actions and the way the run ended. An action enters the trace
 * once the environment has answered it; when a stream has no answer left,
 * the run ends with `EnvironmentExhausted`.
 */
module Protocol {
  import opened Framing

  /** MAX_ATTEMPTS: the retry counter runs while it is below this bound. */
  const MAX_ATTEMPTS: nat := 3
  /** Pause between two bind attempts, in milliseconds. */
  const RETRY_DELAY: nat := 100
  /** Grace period for the original to release the port after a handover, in milliseconds. */
  const HANDOVER_DELAY: nat := 1000

  /** What one accepted connection gives the listener. */
  datatype Incoming =
    | Body(text: string)  // accepted and read to end of stream
    | ReadError           // accepted, but reading it threw IOException
    | AcceptError         // `accept` itself threw IOException

  /** The environment's answers, each stream consumed from the front. */
  datatype Env = Env(
    binds: seq<bool>,         // `new ServerSocket(port)`: true when the port was bound
    sleeps: seq<bool>,        // `Thread.sleep`: true when the sleep was interrupted
    messages: seq<string>,    // results of `onInstanceIsDuplicate`
    sends: seq<bool>,         // connect, write, flush and close: true when all completed
    decisions: seq<bool>,     // results of `onDuplicateCleanup`
    incoming: seq<Incoming>)  // the connections the bound socket accepts, in order

  /** Observable actions of the handler. */
  datatype Action =
    | Bind                   // an attempt to bind the port
    | Sleep(millis: nat)     // a `Thread.sleep` that was started
    | OnDuplicate(msg: string)  // `onInstanceIsDuplicate` returned msg
    | Send(msg: string)      // msg written, flushed, connection closed
    | Cleanup(msg: string)   // `onDuplicateCleanup(msg)` called
    | Listen                 // the listener was started on the bound port
    | Deliver(msg: string)   // `onMessageFromDuplicate(msg)` called

  datatype Outcome =
    | Listening              // bound; the listener still waits in `accept`
    | ListenerStopped        // bound; an IOException ended the listener
    | Declined               // duplicate; `onDuplicateCleanup` returned false
    | TransportFailed        // duplicate; connecting or writing threw IOException
    | HandoverInterrupted    // duplicate; the wait before restarting was interrupted
    | EnvironmentExhausted   // the environment gave no answer for the next step

  datatype Run = Run(trace: seq<Action>, outcome: Outcome)

  predicate IsBound(o: Outcome) {
    o.Listening? || o.ListenerStopped?
  }

  function Then(prefix: seq<Action>, r: Run): (joined: Run) {
    Run(prefix + r.trace, r.outcome)
  }

  lemma ThenThen(a: seq<Action>, b: seq<Action>, r: Run)
    ensures Then(a, Then(b, r)) == Then(a + b, r)
  {
    assert a + (b + r.trace) == (a + b) + r.trace;
  }

  /** `listenForDuplicate`: one delivery per accepted connection until the first IOException. */
  function Listener(incoming: seq<Incoming>): (r: Run)
  {
    if incoming == [] then Run([], Listening)
    else match incoming[0]
      case Body(text) => Then([Deliver(Frame(text))], Listener(incoming[1..]))
      case _ => Run([], ListenerStopped)
  }

  /** `checkIfDuplicate(attempt)`: bind, or retry after a pause, or fall into the duplicate branch. */
  function Check(e: Env, attempt: nat): (r: Run)
    decreases |e.binds|, 0
  {
    if e.binds == [] then Run([], EnvironmentExhausted)
    else if e.binds[0] then Then([Bind, Listen], Listener(e.incoming))
    else
      var e1 := e.(binds := e.binds[1..]);
      if attempt < MAX_ATTEMPTS then
        if e1.sleeps == [] then Run([Bind], EnvironmentExhausted)
        else
          var e2 := e1.(sleeps := e1.sleeps[1..]);
          if e1.sleeps[0] then Then([Bind, Sleep(RETRY_DELAY)], Handshake(e2))
          else Then([Bind, Sleep(RETRY_DELAY)], Check(e2, attempt + 1))
      else Then([Bind], Handshake(e1))
  }

  /**
   * The duplicate branch: ask for the message, send it to the original, ask
   * whether this instance replaces the original, and if so wait and start
   * over with the attempt counter at 0.
   */
  function Handshake(e: Env): (r: Run)
    decreases |e.binds|, 1
  {
    if e.messages == [] then Run([], EnvironmentExhausted)
    else
      var m := e.messages[0];
      var e1 := e.(messages := e.messages[1..]);
      if e1.sends == [] then Run([OnDuplicate(m)], EnvironmentExhausted)
      else if !e1.sends[0] then Run([OnDuplicate(m)], TransportFailed)
      else
        var e2 := e1.(sends := e1.sends[1..]);
        if e2.decisions == [] then Run([OnDuplicate(m), Send(m)], EnvironmentExhausted)
        else
          var e3 := e2.(decisions := e2.decisions[1..]);
          if !e2.decisions[0] then Run([OnDuplicate(m), Send(m), Cleanup(m)], Declined)
          else if e3.sleeps == [] then Run([OnDuplicate(m), Send(m), Cleanup(m)], EnvironmentExhausted)
          else
            var e4 := e3.(sleeps := e3.sleeps[1..]);
            if e3.sleeps[0] then
              Run([OnDuplicate(m), Send(m), Cleanup(m), Sleep(HANDOVER_DELAY)], HandoverInterrupted)
            else
              Then([OnDuplicate(m), Send(m), Cleanup(m), Sleep(HANDOVER_DELAY)], Check(e4, 0))
  }

  // ---------------------------------------------------------------------------
  // The language of traces: which action may follow which.
  // ---------------------------------------------------------------------------

  /** The actions that may come directly before `next` in a trace. */
  predicate Follows(prev: Action, next: Action) {
    match next
    case Bind => prev.Sleep?
    case Sleep(ms) =>
      (ms == RETRY_DELAY && prev == Bind) || (ms == HANDOVER_DELAY && prev.Cleanup?)
    case OnDuplicate(_) => prev == Bind || prev == Sleep(RETRY_DELAY)
    case Send(m) => prev == OnDuplicate(m)
    case Cleanup(m) => prev == Send(m)
    case Listen => prev == Bind
    case Deliver(_) => prev == Listen || prev.Deliver?
  }

  predicate Ordered(t: seq<Action>) {
    forall i :: 0 < i < |t| ==> Follows(t[i - 1], t[i])
  }

  function Count(t: seq<Action>, x: Action): (n: nat)
    ensures n <= |t|
  {
    if t == [] then 0 else (if t[0] == x then 1 else 0) + Count(t[1..], x)
  }

  function Retries(n: nat): (t: seq<Action>)
    ensures |t| == 2 * n
  {
    if n == 0 then [] else [Bind, Sleep(RETRY_DELAY)] + Retries(n - 1)
  }

  lemma {:induction false} OrderedAppend(p: seq<Action>, q: seq<Action>)
    requires Ordered(p) && Ordered(q)
    requires p != [] && q != [] ==> Follows(p[|p| - 1], q[0])
    ensures Ordered(p + q)
  {
    forall i | 0 < i < |p + q|
      ensures Follows((p + q)[i - 1], (p + q)[i])
    {
      if i < |p| {
        assert (p + q)[i - 1] == p[i - 1] && (p + q)[i] == p[i];
      } else if i == |p| {
        assert (p + q)[i] == q[0];
      } else {
        assert (p + q)[i - 1] == q[i - 1 - |p|] && (p + q)[i] == q[i - |p|];
      }
    }
  }

  lemma {:induction false} CountAppend(p: seq<Action>, q: seq<Action>, x: Action)
    ensures Count(p + q, x) == Count(p, x) + Count(q, x)
  {
    if p == [] {
      assert p + q == q;
    } else {
      assert (p + q)[1..] == p[1..] + q;
      CountAppend(p[1..], q, x);
    }
  }

  // ---------------------------------------------------------------------------
  // Listener
  // ---------------------------------------------------------------------------

  /**
   * One `onMessageFromDuplicate` call per accepted connection, in accept
   * order, each with the framed body; the first IOException, on accept or
   * on read, ends the listener for good.
   */
  lemma {:induction false} ListenerDelivers(incoming: seq<Incoming>)
    ensures var r := Listener(incoming);
      |r.trace| <= |incoming| &&
      (forall i :: 0 <= i < |r.trace| ==>
         incoming[i].Body? && r.trace[i] == Deliver(Frame(incoming[i].text))) &&
      (r.outcome == Listening <==> |r.trace| == |incoming|) &&
      (r.outcome == ListenerStopped <==> |r.trace| < |incoming|) &&
      (|r.trace| < |incoming| ==> !incoming[|r.trace|].Body?)
  {
    if incoming != [] && incoming[0].Body? {
      ListenerDelivers(incoming[1..]);
      var r := Listener(incoming[1..]);
      assert Listener(incoming) == Then([Deliver(Frame(incoming[0].text))], r);
      forall i | 1 <= i < |r.trace| + 1
        ensures incoming[i].Body? && Listener(incoming).trace[i] == Deliver(Frame(incoming[i].text))
      {
        assert incoming[1..][i - 1] == incoming[i];
      }
    }
  }

  /** The listener's trace is a run of deliveries. */
  lemma ListenerOnlyDelivers(incoming: seq<Incoming>)
    ensures forall x :: x in Listener(incoming).trace ==> x.Deliver?
    ensures Ordered(Listener(incoming).trace)
    ensures IsBound(Listener(incoming).outcome)
  {
    ListenerDelivers(incoming);
  }

  // ---------------------------------------------------------------------------
  // Negotiator
  // ---------------------------------------------------------------------------

  /** A successful bind goes straight to listening: the duplicate branch is never entered in that round. */
  lemma BindWins(e: Env, attempt: nat)
    requires e.binds != [] && e.binds[0]
    ensures var r := Check(e, attempt);
      r.trace[..2] == [Bind, Listen] &&
      IsBound(r.outcome) &&
      forall x :: x in r.trace[2..] ==> x.Deliver?
  {
    ListenerOnlyDelivers(e.incoming);
    assert Check(e, attempt).trace[2..] == Listener(e.incoming).trace;
  }

  /**
   * With every bind refused and no sleep interrupted, a run that starts at
   * `attempt` binds MAX_ATTEMPTS - attempt + 1 times, sleeps RETRY_DELAY
   * between binds, and then enters the duplicate branch.
   */
  lemma {:induction false} AllRefused(e: Env, attempt: nat)
    requires attempt <= MAX_ATTEMPTS
    requires |e.binds| > MAX_ATTEMPTS - attempt
    requires forall i :: 0 <= i <= MAX_ATTEMPTS - attempt ==> !e.binds[i]
    requires |e.sleeps| >= MAX_ATTEMPTS - attempt
    requires forall i :: 0 <= i < MAX_ATTEMPTS - attempt ==> !e.sleeps[i]
    ensures var k := MAX_ATTEMPTS - attempt;
      Check(e, attempt) ==
        Then(Retries(k) + [Bind], Handshake(e.(binds := e.binds[k + 1..], sleeps := e.sleeps[k..])))
    decreases MAX_ATTEMPTS - attempt
  {
    var k := MAX_ATTEMPTS - attempt;
    if k == 0 {
      assert e.sleeps[0..] == e.sleeps;
    } else {
      var e2 := e.(binds := e.binds[1..], sleeps := e.sleeps[1..]);
      assert !e.binds[0] && !e.sleeps[0];
      assert Check(e, attempt) == Then([Bind, Sleep(RETRY_DELAY)], Check(e2, attempt + 1));
      forall i | 0 <= i <= k - 1 ensures !e2.binds[i] {
        assert e2.binds[i] == e.binds[i + 1];
      }
      forall i | 0 <= i < k - 1 ensures !e2.sleeps[i] {
        assert e2.sleeps[i] == e.sleeps[i + 1];
      }
      AllRefused(e2, attempt + 1);
      var later := e2.(binds := e2.binds[k..], sleeps := e2.sleeps[k - 1..]);
      assert later == e.(binds := e.binds[k + 1..], sleeps := e.sleeps[k..]);
      ThenThen([Bind, Sleep(RETRY_DELAY)], Retries(k - 1) + [Bind], Handshake(later));
      assert [Bind, Sleep(RETRY_DELAY)] + (Retries(k - 1) + [Bind]) == Retries(k) + [Bind];
    }
  }

  lemma {:induction false} RetriesCount(n: nat)
    ensures Count(Retries(n) + [Bind], Bind) == n + 1
    ensures Count(Retries(n) + [Bind], Sleep(RETRY_DELAY)) == n
    ensures Count(Retries(n) + [Bind], Sleep(HANDOVER_DELAY)) == 0
  {
    if n > 0 {
      RetriesCount(n - 1);
      assert (Retries(n) + [Bind])[1..][1..] == Retries(n - 1) + [Bind];
    }
  }

  /**
   * From a fresh start with every bind refused: exactly MAX_ATTEMPTS + 1 = 4
   * binds and MAX_ATTEMPTS = 3 pauses of RETRY_DELAY come before the
   * duplicate branch.
   */
  lemma BoundedRetry(e: Env)
    requires |e.binds| > MAX_ATTEMPTS && forall i :: 0 <= i <= MAX_ATTEMPTS ==> !e.binds[i]
    requires |e.sleeps| >= MAX_ATTEMPTS && forall i :: 0 <= i < MAX_ATTEMPTS ==> !e.sleeps[i]
    ensures var prefix := Retries(MAX_ATTEMPTS) + [Bind];
      Count(prefix, Bind) == 4 && Count(prefix, Sleep(RETRY_DELAY)) == 3 &&
      Check(e, 0) == Then(prefix,
        Handshake(e.(binds := e.binds[MAX_ATTEMPTS + 1..], sleeps := e.sleeps[MAX_ATTEMPTS..])))
  {
    AllRefused(e, 0);
    RetriesCount(MAX_ATTEMPTS);
  }

  /** An interrupted pause skips the remaining retries and enters the duplicate branch at once. */
  lemma {:induction false} InterruptedRetry(e: Env, attempt: nat, j: nat)
    requires attempt + j < MAX_ATTEMPTS
    requires |e.binds| > j && forall i :: 0 <= i <= j ==> !e.binds[i]
    requires |e.sleeps| > j && e.sleeps[j] && forall i :: 0 <= i < j ==> !e.sleeps[i]
    ensures Check(e, attempt) ==
      Then(Retries(j + 1), Handshake(e.(binds := e.binds[j + 1..], sleeps := e.sleeps[j + 1..])))
    decreases j
  {
    var e2 := e.(binds := e.binds[1..], sleeps := e.sleeps[1..]);
    if j == 0 {
      assert Check(e, attempt) == Then([Bind, Sleep(RETRY_DELAY)], Handshake(e2));
    } else {
      assert !e.binds[0] && !e.sleeps[0];
      assert Check(e, attempt) == Then([Bind, Sleep(RETRY_DELAY)], Check(e2, attempt + 1));
      forall i | 0 <= i <= j - 1 ensures !e2.binds[i] {
        assert e2.binds[i] == e.binds[i + 1];
      }
      forall i | 0 <= i < j - 1 ensures !e2.sleeps[i] {
        assert e2.sleeps[i] == e.sleeps[i + 1];
      }
      assert e2.sleeps[j - 1] == e.sleeps[j];
      InterruptedRetry(e2, attempt + 1, j - 1);
      var later := e2.(binds := e2.binds[j..], sleeps := e2.sleeps[j..]);
      assert later == e.(binds := e.binds[j + 1..], sleeps := e.sleeps[j + 1..]);
      ThenThen([Bind, Sleep(RETRY_DELAY)], Retries(j), Handshake(later));
    }
  }

  /**
   * The duplicate branch once the message was sent: the message written to
   * the original and the one given to `onDuplicateCleanup` are the one
   * `onInstanceIsDuplicate` produced, and cleanup comes after the send. On
   * false the run ends there; on true there is one pause of HANDOVER_DELAY
   * and acquisition starts over with the attempt counter at 0.
   */
  lemma HandshakeDecides(e: Env)
    requires e.messages != [] && e.sends != [] && e.sends[0] && e.decisions != []
    ensures var m := e.messages[0];
      var r := Handshake(e);
      var e3 := e.(messages := e.messages[1..], sends := e.sends[1..], decisions := e.decisions[1..]);
      r.trace[..3] == [OnDuplicate(m), Send(m), Cleanup(m)] &&
      (!e.decisions[0] ==> r == Run([OnDuplicate(m), Send(m), Cleanup(m)], Declined)) &&
      (e.decisions[0] && e.sleeps != [] && !e.sleeps[0] ==>
         r == Then([OnDuplicate(m), Send(m), Cleanup(m), Sleep(HANDOVER_DELAY)],
                   Check(e3.(sleeps := e.sleeps[1..]), 0))) &&
      (e.decisions[0] && e.sleeps != [] && e.sleeps[0] ==>
         r == Run([OnDuplicate(m), Send(m), Cleanup(m), Sleep(HANDOVER_DELAY)], HandoverInterrupted))
  {
  }

  /** A failed connect or write abandons the handshake: no cleanup, no resend, no restart. */
  lemma HandshakeAbandoned(e: Env)
    requires e.messages != [] && e.sends != [] && !e.sends[0]
    ensures Handshake(e) == Run([OnDuplicate(e.messages[0])], TransportFailed)
  {
  }

  /**
   * Every run, from any attempt, follows the trace language (so each send
   * carries the produced message and each cleanup follows its send), starts
   * with a bind, and ends as its outcome says: the listener was started
   * exactly when the port was bound, a declined or abandoned handshake is
   * the last thing done, and an interrupted handover ends on its pause.
   */
  lemma {:induction false} CheckWellFormed(e: Env, attempt: nat)
    ensures var r := Check(e, attempt);
      Ordered(r.trace) && (r.trace != [] ==> r.trace[0] == Bind) && Ends(r)
    decreases |e.binds|, 0
  {
    if e.binds == [] {
    } else if e.binds[0] {
      ListenerOnlyDelivers(e.incoming);
      var l := Listener(e.incoming);
      OrderedAppend([Bind, Listen], l.trace);
      assert Check(e, attempt).trace == [Bind, Listen] + l.trace;
      assert Listen in [Bind, Listen] + l.trace;
    } else {
      var e1 := e.(binds := e.binds[1..]);
      if attempt < MAX_ATTEMPTS {
        if e1.sleeps != [] {
          var e2 := e1.(sleeps := e1.sleeps[1..]);
          var r := if e1.sleeps[0] then Handshake(e2) else Check(e2, attempt + 1);
          if e1.sleeps[0] { HandshakeWellFormed(e2); } else { CheckWellFormed(e2, attempt + 1); }
          OrderedAppend([Bind, Sleep(RETRY_DELAY)], r.trace);
          EndsThen([Bind, Sleep(RETRY_DELAY)], r);
        }
      } else {
        HandshakeWellFormed(e1);
        OrderedAppend([Bind], Handshake(e1).trace);
        EndsThen([Bind], Handshake(e1));
      }
    }
  }

  lemma {:induction false} HandshakeWellFormed(e: Env)
    ensures var r := Handshake(e);
      Ordered(r.trace) && (r.trace != [] ==> r.trace[0].OnDuplicate?) && Ends(r)
    decreases |e.binds|, 1
  {
    if e.messages != [] && e.sends != [] && e.sends[0] && e.decisions != [] && e.decisions[0]
       && e.sleeps != [] && !e.sleeps[0] {
      var m := e.messages[0];
      var e4 := e.(messages := e.messages[1..], sends := e.sends[1..],
                   decisions := e.decisions[1..], sleeps := e.sleeps[1..]);
      {
        var prefix := [OnDuplicate(m), Send(m), Cleanup(m), Sleep(HANDOVER_DELAY)];
        CheckWellFormed(e4, 0);
        OrderedAppend(prefix, Check(e4, 0).trace);
        EndsThen(prefix, Check(e4, 0));
      }
    }
  }

  /** How the last actions of a trace match its outcome. */
  predicate Ends(r: Run) {
    (Listen in r.trace <==> IsBound(r.outcome)) &&
    (r.outcome == Declined ==> r.trace != [] && r.trace[|r.trace| - 1].Cleanup?) &&
    (r.outcome == TransportFailed ==> r.trace != [] && r.trace[|r.trace| - 1].OnDuplicate?) &&
    (r.outcome == HandoverInterrupted ==>
       r.trace != [] && r.trace[|r.trace| - 1] == Sleep(HANDOVER_DELAY))
  }

  lemma EndsThen(prefix: seq<Action>, r: Run)
    requires Ends(r) && Listen !in prefix
    requires r.outcome in {Declined, TransportFailed, HandoverInterrupted} ==> r.trace != []
    ensures Ends(Then(prefix, r))
  {
    var t := prefix + r.trace;
    assert Listen in t <==> Listen in r.trace;
    if r.trace != [] {
      assert t[|t| - 1] == r.trace[|r.trace| - 1];
    }
  }

  /**
   * The attempt counter restarts at 0 after each handover: at most
   * MAX_ATTEMPTS - attempt + 1 binds before the first duplicate branch and
   * at most MAX_ATTEMPTS + 1 more per duplicate branch entered.
   */
  lemma {:induction false} BindsPerRound(e: Env, attempt: nat)
    requires attempt <= MAX_ATTEMPTS
    ensures var t := Check(e, attempt).trace;
      Count(t, Bind) <= (MAX_ATTEMPTS + 1 - attempt) + (MAX_ATTEMPTS + 1) * CountDuplicates(t)
    decreases |e.binds|, 0
  {
    if e.binds == [] {
    } else if e.binds[0] {
      ListenerOnlyDelivers(e.incoming);
      CountAbsent(Listener(e.incoming).trace, Bind);
      CountAppend([Bind, Listen], Listener(e.incoming).trace, Bind);
    } else {
      var e1 := e.(binds := e.binds[1..]);
      if attempt < MAX_ATTEMPTS {
        if e1.sleeps != [] {
          var e2 := e1.(sleeps := e1.sleeps[1..]);
          var r := if e1.sleeps[0] then Handshake(e2) else Check(e2, attempt + 1);
          if e1.sleeps[0] { HandshakeBinds(e2); } else { BindsPerRound(e2, attempt + 1); }
          CountAppend([Bind, Sleep(RETRY_DELAY)], r.trace, Bind);
          DuplicatesAppend([Bind, Sleep(RETRY_DELAY)], r.trace);
        }
      } else {
        HandshakeBinds(e1);
        CountAppend([Bind], Handshake(e1).trace, Bind);
        DuplicatesAppend([Bind], Handshake(e1).trace);
      }
    }
  }

  lemma {:induction false} HandshakeBinds(e: Env)
    ensures var t := Handshake(e).trace;
      Count(t, Bind) <= (MAX_ATTEMPTS + 1) * CountDuplicates(t)
    decreases |e.binds|, 1
  {
    if e.messages != [] && e.sends != [] && e.sends[0] && e.decisions != [] && e.decisions[0]
       && e.sleeps != [] && !e.sleeps[0] {
      var m := e.messages[0];
      var e4 := e.(messages := e.messages[1..], sends := e.sends[1..],
                   decisions := e.decisions[1..], sleeps := e.sleeps[1..]);
      var prefix := [OnDuplicate(m), Send(m), Cleanup(m), Sleep(HANDOVER_DELAY)];
      BindsPerRound(e4, 0);
      CountAbsent(prefix, Bind);
      CountAppend(prefix, Check(e4, 0).trace, Bind);
      DuplicatesAppend(prefix, Check(e4, 0).trace);
    } else {
      CountAbsent(Handshake(e).trace, Bind);
    }
  }

  function CountDuplicates(t: seq<Action>): (n: nat)
    ensures n <= |t|
  {
    if t == [] then 0 else (if t[0].OnDuplicate? then 1 else 0) + CountDuplicates(t[1..])
  }

  lemma {:induction false} DuplicatesAppend(p: seq<Action>, q: seq<Action>)
    ensures CountDuplicates(p + q) == CountDuplicates(p) + CountDuplicates(q)
  {
    if p == [] {
      assert p + q == q;
    } else {
      assert (p + q)[1..] == p[1..] + q;
      DuplicatesAppend(p[1..], q);
    }
  }

  lemma {:induction false} CountAbsent(t: seq<Action>, x: Action)
    requires x !in t
    ensures Count(t, x) == 0
  {
    if t != [] {
      assert t[0] in t;
      assert forall y :: y in t[1..] ==> y in t;
      CountAbsent(t[1..], x);
    }
  }
}
