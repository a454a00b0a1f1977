/**
 * `SingletonHandler` as imperative code: the static registration slot, the
 * retry/handover loop and the listener's accept/read loop. The operating
 * system and the application's callbacks answer through an `Env`; each
 * method is proved to behave as the specification functions of `Protocol`.
 */
module Handler {
  import opened Framing
  import opened Protocol

  /** The application's object. Its three callbacks are answered by the environment. */
  class Singleton {
    constructor () { }
  }

  datatype SetupResult =
    | Started(run: Run)            // registered; `checkIfDuplicate(0)` ran
    | IllegalState(reason: string) // IllegalStateException: a handler was already registered

  class SingletonHandler {
    var singleton: Singleton
    var port: int
    /** The bound `ServerSocket`, by its port; None until a bind succeeds. */
    var socket: Option<int>

    constructor (singleton: Singleton, port: int)
      ensures this.singleton == singleton && this.port == port && socket == None
    {
      this.singleton := singleton;
      this.port := port;
      socket := None;
    }

    /**
     * `checkIfDuplicate(0)`. The self-call that restarts acquisition after a
     * handover (attempt reset to 0) is an iteration of this loop; the
     * self-call that retries a refused bind is the loop inside `Acquire`.
     */
    method CheckIfDuplicate(env: Env) returns (trace: seq<Action>, outcome: Outcome)
      modifies this`socket
      ensures Run(trace, outcome) == Check(env, 0)
      ensures socket == if IsBound(outcome) then Some(port) else old(socket)
    {
      var e := env;
      trace := [];
      while true
        invariant Check(env, 0) == Then(trace, Check(e, 0))
        invariant socket == old(socket)
        decreases |e.binds|
      {
        var acquireTrace, duplicate, acquireOutcome, rest := Acquire(e);
        trace := trace + acquireTrace;
        if !duplicate {
          outcome := acquireOutcome;
          return;
        }
        var restart, handshakeTrace, handshakeOutcome, next := DuplicateBranch(rest);
        trace := trace + handshakeTrace;
        if !restart {
          outcome := handshakeOutcome;
          return;
        }
        e := next;
      }
    }

    /**
     * The bind attempts of `checkIfDuplicate`, from attempt 0: bind and
     * listen, or pause RETRY_DELAY and bind again while the attempt counter
     * is below MAX_ATTEMPTS. `duplicate` says that the duplicate branch is
     * to be entered on the environment `rest`.
     */
    method Acquire(env: Env) returns (trace: seq<Action>, duplicate: bool, outcome: Outcome, rest: Env)
      modifies this`socket
      ensures duplicate ==> Check(env, 0) == Then(trace, Handshake(rest)) && |rest.binds| < |env.binds|
      ensures duplicate ==> forall x :: x in trace ==> x == Bind || x == Sleep(RETRY_DELAY)
      ensures !duplicate ==> Check(env, 0) == Run(trace, outcome)
      ensures socket == if !duplicate && IsBound(outcome) then Some(port) else old(socket)
    {
      var e, attempt := env, 0;
      trace, duplicate, outcome := [], false, EnvironmentExhausted;
      while true
        invariant attempt <= MAX_ATTEMPTS
        invariant Check(env, 0) == Then(trace, Check(e, attempt))
        invariant |e.binds| <= |env.binds|
        invariant socket == old(socket)
        invariant forall x :: x in trace ==> x == Bind || x == Sleep(RETRY_DELAY)
        decreases |e.binds|
      {
        if e.binds == [] {
          assert trace + [] == trace;
          rest := e;
          return;
        }
        var bound := e.binds[0];
        if bound {
          socket := Some(port);
          var delivered, stop := ListenForDuplicate(e.incoming);
          ThenThen(trace, [Bind, Listen], Run(delivered, stop));
          trace, outcome, rest := trace + [Bind, Listen] + delivered, stop, e;
          return;
        }
        var refused := e.(binds := e.binds[1..]);
        if attempt < MAX_ATTEMPTS {
          if refused.sleeps == [] {
            trace, rest := trace + [Bind], refused;
            return;
          }
          var interrupted := refused.sleeps[0];
          var slept := refused.(sleeps := refused.sleeps[1..]);
          ThenThen(trace, [Bind, Sleep(RETRY_DELAY)], if interrupted then Handshake(slept) else Check(slept, attempt + 1));
          trace, e := trace + [Bind, Sleep(RETRY_DELAY)], slept;
          if !interrupted {
            attempt := attempt + 1;
            continue;
          }
          duplicate, rest := true, e;
          return;
        }
        ThenThen(trace, [Bind], Handshake(refused));
        trace, duplicate, rest := trace + [Bind], true, refused;
        return;
      }
    }

    /**
     * The duplicate branch of `checkIfDuplicate`: produce the message, send
     * it to the original, ask `onDuplicateCleanup`, and on true wait before
     * acquisition restarts. `restart` says that the caller starts over with
     * the attempt counter at 0 on the environment `next`.
     */
    method DuplicateBranch(e: Env) returns (restart: bool, trace: seq<Action>, outcome: Outcome, next: Env)
      ensures restart ==> Handshake(e) == Then(trace, Check(next, 0))
      ensures restart ==> next.binds == e.binds && next.incoming == e.incoming
      ensures !restart ==> Handshake(e) == Run(trace, outcome) && !IsBound(outcome)
    {
      restart, trace, next := false, [], e;
      if e.messages == [] {
        outcome := EnvironmentExhausted;
        return;
      }
      var message := e.messages[0];
      trace := [OnDuplicate(message)];
      if e.sends == [] {
        outcome := EnvironmentExhausted;
        return;
      }
      if !e.sends[0] {
        outcome := TransportFailed;
        return;
      }
      trace := trace + [Send(message)];
      if e.decisions == [] {
        outcome := EnvironmentExhausted;
        return;
      }
      var replacingOriginal := e.decisions[0];
      trace := trace + [Cleanup(message)];
      if !replacingOriginal {
        outcome := Declined;
        return;
      }
      if e.sleeps == [] {
        outcome := EnvironmentExhausted;
        return;
      }
      var interrupted := e.sleeps[0];
      trace := trace + [Sleep(HANDOVER_DELAY)];
      if interrupted {
        outcome := HandoverInterrupted;
        return;
      }
      restart, outcome := true, EnvironmentExhausted;
      next := e.(messages := e.messages[1..], sends := e.sends[1..],
                 decisions := e.decisions[1..], sleeps := e.sleeps[1..]);
    }

    /**
     * `listenForDuplicate`: accept a connection, read it line by line to end
     * of stream into one buffer, hand the buffer to `onMessageFromDuplicate`,
     * and repeat until an IOException.
     */
    method ListenForDuplicate(incoming: seq<Incoming>) returns (delivered: seq<Action>, stop: Outcome)
      ensures Run(delivered, stop) == Listener(incoming)
      ensures IsBound(stop)
    {
      delivered := [];
      var i := 0;
      while i < |incoming|
        invariant 0 <= i <= |incoming|
        invariant Then(delivered, Listener(incoming[i..])) == Listener(incoming)
      {
        assert incoming[i..][1..] == incoming[i + 1..];
        match incoming[i] {
          case Body(text) =>
            var str := ReadMessage(text);
            assert Listener(incoming[i..]) == Then([Deliver(str)], Listener(incoming[i + 1..]));
            delivered := delivered + [Deliver(str)];
          case _ =>
            stop := ListenerStopped;
            return;
        }
        i := i + 1;
      }
      stop := Listening;
    }
  }

  /**
   * The reading of one accepted connection in `listenForDuplicate`: append
   * every `readLine` result to one buffer until end of stream.
   */
  method ReadMessage(body: string) returns (str: string)
    ensures str == Frame(body)
  {
    str := "";
    var rest := body;
    var line := ReadLine(rest);
    while line.Some?
      invariant line == ReadLine(rest)
      invariant str + Frame(rest) == Frame(body)
      decreases |rest|
    {
      str := str + line.value.text;
      rest := line.value.rest;
      line := ReadLine(rest);
    }
    assert rest == [] && str + [] == str;
  }

  /** The static `_instance` slot of `SingletonHandler`. */
  class Registry {
    var instance: SingletonHandler?

    constructor ()
      ensures instance == null
    {
      instance := null;
    }

    /**
     * `setupHandler`: refuse a second registration before touching anything;
     * otherwise register a new handler and run `checkIfDuplicate(0)` on it.
     */
    method SetupHandler(singleton: Singleton, port: int, env: Env) returns (r: SetupResult)
      modifies this
      ensures old(instance) != null ==>
        r.IllegalState? && instance == old(instance) &&
        instance.singleton == old(instance.singleton) && instance.port == old(instance.port) &&
        instance.socket == old(instance.socket)
      ensures old(instance) == null ==>
        instance != null && fresh(instance) &&
        instance.singleton == singleton && instance.port == port &&
        r == Started(Check(env, 0)) &&
        instance.socket == if IsBound(r.run.outcome) then Some(port) else None
    {
      if instance != null {
        r := IllegalState("Another Singleton attempting to register itself from within a currently running Singleton _instance");
        return;
      }
      var handler := new SingletonHandler(singleton, port);
      instance := handler;
      var trace, outcome := handler.CheckIfDuplicate(env);
      r := Started(Run(trace, outcome));
    }
  }

  /**
   * A second `setupHandler` in the same process fails, and the first
   * registration's singleton and port stay in place.
   */
  method RegisterTwice(first: Singleton, second: Singleton, firstPort: int, secondPort: int,
                       env1: Env, env2: Env)
    returns (r1: SetupResult, r2: SetupResult, kept: Singleton, keptPort: int)
    ensures r1 == Started(Check(env1, 0))
    ensures r2.IllegalState?
    ensures kept == first && keptPort == firstPort
  {
    var registry := new Registry();
    r1 := registry.SetupHandler(first, firstPort, env1);
    r2 := registry.SetupHandler(second, secondPort, env2);
    kept := registry.instance.singleton;
    keptPort := registry.instance.port;
  }
}
