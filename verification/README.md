# SingletonAPI handler: a Dafny model

SingletonAPI keeps a program to one running instance per machine. Each
instance registers a `Singleton` with `SingletonHandler.setupHandler(singleton, port)`.
The handler then tries to bind a `ServerSocket` on that port:

- If the bind succeeds, this instance is the original. It listens on the port
  and hands every message a later duplicate sends to `onMessageFromDuplicate`.
- If the bind fails, the handler retries after a pause of 100 ms while its
  attempt counter is below `MAX_ATTEMPTS = 3`. It then treats this instance as
  a duplicate:
  1. It takes a message from `onInstanceIsDuplicate`.
  2. It writes the message to the original over a socket.
  3. It asks `onDuplicateCleanup(message)` whether this instance replaces the
     original.
  4. On true, it waits 1000 ms and starts over with the counter at 0.

This project models that core: the once-only registration,
the bind/retry/handover decision procedure of `checkIfDuplicate`, and the
accept/read loop of `listenForDuplicate`.

The operating system and the application's three callbacks are replaced by an
environment oracle, `Protocol.Env`. It holds one stream of answers per kind of
question:
- whether a bind succeeded;
- whether a sleep was interrupted;
- what `onInstanceIsDuplicate` returned;
- whether connect/write/flush/close completed;
- what `onDuplicateCleanup` returned;
- which connections the bound socket accepts.

A run produces a trace of observable actions (`Bind`, `Sleep(ms)`,
`OnDuplicate(m)`, `Send(m)`, `Cleanup(m)`, `Listen`, `Deliver(m)`) and an
outcome saying how it ended. An action enters the trace once the environment
has answered it. A run whose environment has no answer left ends with
`EnvironmentExhausted`.

The project has three modules, one per part of the core:

- `Framing` (framing.dfy) covers the message framing. `ReadLine` models
  `BufferedReader.readLine` on a character stream: a line ends at `\n`, `\r` or
  `\r\n`. `Frame` is the message that the line-by-line concatenation produces.
- `Protocol` (protocol.dfy) holds the specification functions `Check`
  (`checkIfDuplicate(attempt)`), `Handshake` (its duplicate branch) and
  `Listener` (`listenForDuplicate`). It also holds the trace language `Follows`
  and `Ordered`, and the lemmas about these functions. The self-calls at lines
  103 and 124 become mutual recursion. It terminates because every round uses
  up one bind answer.
- `Handler` (handler.dfy) is the imperative model:
  - `Registry` holds the static `_instance` slot and `SetupHandler`.
  - `SingletonHandler` holds the `singleton`, `port` and `socket` fields.
  - `CheckIfDuplicate` turns the source's recursion into loops. Its outer loop
    is the restart after a handover. The loop in `Acquire` is the retry with
    `attempt + 1`.
  - `ListenForDuplicate` is the accept loop, and `ReadMessage` is its inner
    `readLine` loop.

  Each method is proved equal to the specification function it implements.

In three places the code's own comments, or a natural reading of the
handshake, promise more than the code does. The model follows the code in each:

- **Number of binds.** The comment at SingletonHandler.java line 86 says the
  handler will "triple check", and the one at line 98 says it tries to bind "at
  least 3 times". The test `attempt < MAX_ATTEMPTS`, starting from 0, makes
  `MAX_ATTEMPTS + 1 = 4` binds with 3 pauses between them
  (`Protocol.BoundedRetry`).
- **Read errors.** A single `try` (lines 141-159) wraps the whole
  `while (true)`. Any IOException, on accept or while reading one connection,
  therefore ends the listener for good (`Protocol.ListenerDelivers`).
- **Message fidelity.** The original reads each connection with `readLine` and
  appends the lines without their terminators (lines 145-153). A message
  therefore arrives unchanged only when it holds no `\r` or `\n`
  (`Framing.RoundTripExact`).

## Model

| member | source | states |
|---|---|---|
| `Framing.Frame` | src/net/dv8tion/singleton/SingletonHandler.java:145-153 | the message built from a connection body holds no `\r` or `\n` and is no longer than the body |
| `Framing.ReadLine` | src/net/dv8tion/singleton/SingletonHandler.java:148-151 | `readLine` returns null exactly at end of stream; otherwise it returns the characters up to the first `\r` or `\n` as the line, the rest of the stream is a suffix after it, the line holds no terminators, and that line followed by the framing of the rest of the stream is the framing of the whole stream, so reading always makes progress |
| `Framing.RoundTripExact` | src/net/dv8tion/singleton/SingletonHandler.java:145-153 | a message arrives exactly as written if and only if it contains no `\r` or `\n` |
| `Framing.FrameIdempotent` | src/net/dv8tion/singleton/SingletonHandler.java:145-153 | framing an already framed message changes nothing |
| `Handler.ReadMessage` | src/net/dv8tion/singleton/SingletonHandler.java:145-153 | appending every `readLine` result until end of stream yields the body with all line terminators removed |
| `Handler.SingletonHandler.ListenForDuplicate` | src/net/dv8tion/singleton/SingletonHandler.java:139-160 | the accept/read loop produces exactly the deliveries and the stop reason of `Listener`, and always ends on the bound port |
| `Protocol.ListenerDelivers` | src/net/dv8tion/singleton/SingletonHandler.java:143-159 | one `onMessageFromDuplicate` per accepted connection, in accept order, carrying that connection's framed body; the first IOException on accept or read ends the listener, and it keeps waiting exactly when no error came |
| `Protocol.ListenerOnlyDelivers` | src/net/dv8tion/singleton/SingletonHandler.java:143-159 | the listener does nothing but deliver messages, and its outcome is always one of the bound outcomes |
| `Protocol.BindWins` | src/net/dv8tion/singleton/SingletonHandler.java:91-95 | when the bind succeeds the run is bind, listen, then deliveries only: `onInstanceIsDuplicate` is not called in that round |
| `Protocol.AllRefused` | src/net/dv8tion/singleton/SingletonHandler.java:96-111 | from attempt `a` with every bind refused and no pause interrupted, the run is `MAX_ATTEMPTS - a` rounds of bind-and-pause, one last bind, then the duplicate branch |
| `Protocol.BoundedRetry` | src/net/dv8tion/singleton/SingletonHandler.java:98-111 | from attempt 0, exactly 4 binds and 3 pauses of 100 ms come before the duplicate branch |
| `Protocol.InterruptedRetry` | src/net/dv8tion/singleton/SingletonHandler.java:100-111 | an interrupted 100 ms pause skips the remaining retries and enters the duplicate branch at once |
| `Protocol.HandshakeDecides` | src/net/dv8tion/singleton/SingletonHandler.java:111-125 | the message sent and the message given to `onDuplicateCleanup` are both the one `onInstanceIsDuplicate` returned, and cleanup follows the send. False ends the run as declined. True gives one 1000 ms pause and a restart at attempt 0, unless the pause is interrupted. These are `Handshake`'s branches spelled out; `Protocol.HandshakeWellFormed` and `Protocol.CheckWellFormed` prove the send/cleanup order for every run |
| `Protocol.HandshakeAbandoned` | src/net/dv8tion/singleton/SingletonHandler.java:113-130 | a failed connect or write ends the run: no cleanup call, no resend, no restart. This is one branch of `Handshake` spelled out; `Protocol.HandshakeWellFormed` proves for every run that an abandoned handshake ends on the produced message |
| `Protocol.CheckWellFormed` | src/net/dv8tion/singleton/SingletonHandler.java:89-132 | every run of `checkIfDuplicate` follows the trace language and starts with a bind. Each send carries the produced message and each cleanup follows its send. The listener is started exactly when the outcome is a bound one. A declined run ends on its cleanup, an abandoned one on the produced message, an interrupted handover on its pause |
| `Protocol.HandshakeWellFormed` | src/net/dv8tion/singleton/SingletonHandler.java:111-131 | the same for a run that starts in the duplicate branch, which opens with `onInstanceIsDuplicate` |
| `Protocol.BindsPerRound` | src/net/dv8tion/singleton/SingletonHandler.java:98-124 | since the counter restarts at 0 after each handover, a run from attempt `a` binds at most `MAX_ATTEMPTS + 1 - a` times plus `MAX_ATTEMPTS + 1` per duplicate branch entered |
| `Protocol.HandshakeBinds` | src/net/dv8tion/singleton/SingletonHandler.java:120-125 | a run starting in the duplicate branch binds at most `MAX_ATTEMPTS + 1` times per duplicate branch entered |
| `Handler.SingletonHandler.CheckIfDuplicate` | src/net/dv8tion/singleton/SingletonHandler.java:89-132 | the looping handler produces exactly the trace and outcome of `Check(env, 0)`, and the socket field is set to the port exactly when the run ended bound |
| `Handler.SingletonHandler.Acquire` | src/net/dv8tion/singleton/SingletonHandler.java:91-110 | the bind/retry loop either finishes the run as `Check` does, or hands over to the duplicate branch with fewer bind answers left, after a prefix made only of binds and 100 ms pauses |
| `Handler.SingletonHandler.DuplicateBranch` | src/net/dv8tion/singleton/SingletonHandler.java:111-131 | the duplicate branch either finishes as `Handshake` does, with an unbound outcome, or asks for a restart at attempt 0 on an environment with the same bind answers and the same incoming connections |
| `Handler.SingletonHandler.constructor` | src/net/dv8tion/singleton/SingletonHandler.java:60-62 | a new handler holds the given singleton and port and has no bound socket |
| `Handler.Registry.constructor` | src/net/dv8tion/singleton/SingletonHandler.java:38 | the registration slot starts empty |
| `Handler.Registry.SetupHandler` | src/net/dv8tion/singleton/SingletonHandler.java:54-75 | a second registration fails with IllegalState and leaves the registered handler's singleton, port and socket as they were. A first one registers a fresh handler with the given singleton and port and runs `checkIfDuplicate(0)` on it |
| `Handler.RegisterTwice` | src/net/dv8tion/singleton/SingletonHandler.java:54-62 | registering twice in one process: the first call runs the handler, the second fails, and the first singleton and port stay registered |

## Left out

- Sockets (`ServerSocket`, `Socket`, `InetAddress.getLocalHost()`, the reader
  and writer classes) are foreign I/O. They appear only as answers of the
  environment: a bind result, a send result, the accepted connections.
- Charset encoding by `OutputStreamWriter` and `InputStreamReader` is library
  behaviour. The wire is modelled as characters.
- The thread started by `setupHandler` (lines 64-74) is concurrency.
  `SetupHandler` calls `CheckIfDuplicate` directly after registering and
  returns its run.
- `Thread.sleep` durations are trace events with their nominal values (100 and
  1000 ms), not elapsed time.
- Exclusivity across processes and the convergence of a chain of handovers
  rest on the operating system's exclusive bind and on several processes
  running at once. They are not properties of this code.
- The implementations of the `Singleton` callbacks (Singleton.java) are the
  application's. Their results come from the environment.
  `onMessageFromDuplicate` calls appear as `Deliver` actions.
- `ExampleSingleton.java` is a demonstration program that prints and exits. It
  is not part of this model.
- `printStackTrace` calls are diagnostics and are not modelled.
- A finite environment stands in for blocking calls that never return. The
  listener's blocking `accept` after the last accepted connection is the
  outcome `Listening`. A connection whose peer never closes is not
  representable: every `Body` is finite.
- A connect or write that throws part-way may already have put some characters
  on the wire. The model records `Send(m)` only when connect, write, flush and
  close all completed.
- `Handshake`, `Listener`: unchecked exceptions are not modelled. They escape
  every catch clause (lines 96, 106, 127 and 156) and end the handler's thread
  with no outcome. A null from `onInstanceIsDuplicate` makes `write.write`
  (line 117) throw NullPointerException after the connection is open. A port
  outside 0..65535 makes `new ServerSocket(port)` (line 93) throw
  IllegalArgumentException. A RuntimeException thrown by any callback (lines
  111, 120 and 153) escapes as well. `Env.messages` holds no null, and
  `Listener` always goes on after a `Deliver`.
- `Registry.SetupHandler`: `setupHandler` (lines 54-62) is not synchronized
  and `_instance` is not volatile, so two threads calling it at once can both
  pass the null check. The once-only guard is proved only for calls made one
  after another.
