# DeadlineConn, modelled in Dafny

MinIO's `DeadlineConn` wraps a `net.Conn` and enforces a read timeout and a
write timeout, one per direction. It does not push a new absolute deadline to
the inner connection before every Read or Write. It pushes `now + timeout +
250 ms` only when strictly more than 250 ms (the update interval) have passed
since the last push. An abort flag per direction makes Read or Write fail at
once with `DeadlineExceeded`, without touching the inner connection. `Close`
sets both flags. Given a non-zero time, each deadline setter sets its flags
when that time is in the past and clears them otherwise.

Go's zero time counts as in the past. So when no read timeout is configured,
`SetReadDeadline(zero)` forwards the zero deadline and SETS `abortReads`
(lines 146-148): the next Read fails at once with `DeadlineExceeded`. The doc
comment at line 136 says instead that a zero value means Read will not time
out. `SetWriteDeadline(zero)` does the same on the write side (lines 164-166,
against the comment at line 155). The model follows the code, and the lemmas
`ZeroReadDeadlineWithoutTimeoutAborts` and `ZeroWriteDeadlineWithoutTimeoutAborts`
state the outcome. With a timeout configured, the zero time only clears the
flag (lines 138-142, 157-161). `SetDeadline(zero)` never sets a flag: it
clears both, unless the write clear fails (line 113).

The model has two files:

- `deadlineconn.dfy`, module `DeadlineConn`. Time is an integer count of
  nanoseconds. `ZeroTime` is Go's zero `time.Time`. A `ClockReading` (the
  `now` that each operation sees) lies more than one update interval after
  `ZeroTime`: the zero time is the first instant of year 1. So the zero time
  always counts as in the past, and the first push always happens. Each
  operation is a pure step function (`PushRead`, `ReadStep`,
  `SetDeadlineStep`, …). It maps the six fields (`Fields`) to the new fields,
  the inner calls made, and the result. Its `ensures` state the case analysis
  of the Go method. The class `DeadlineConn` has the same six fields and a
  ghost trace `Calls` of inner-connection calls. Its methods are written
  imperatively, like the Go methods. Each is proved to change the fields, and
  append to `Calls`, exactly as its step function says. Whatever the inner
  connection answers is a parameter of the method that makes the call.
- `runs.dfy`, module `DeadlineConnRuns`. `RunOps` runs a sequence of
  operations. The lemmas relate several operations:
  - Read and Write stay local after `Close` or a past `SetDeadline`, as long
    as only Reads, Writes and timeout configurations follow. Per direction:
    while one direction is aborted, none of its I/O reaches the inner
    connection until `SetDeadline` or that direction's own setter runs.
  - Within one update interval, each direction pushes at most one deadline.
  - The coalescing invariant: the deadline in force equals the last push time
    plus the timeout plus the interval. Whenever an armed Read or Write
    reaches the inner connection, this bounds the time it may block: at least
    the timeout, at most the timeout plus 250 ms. The bound holds for every
    Read and Write of a run of them whose clock readings never go back, in
    particular from a freshly wrapped connection.
  - The 100 ms timing example.

Two details of the code are kept as written:

- `SetDeadline(zero)` may fail on both clears. Then the read clear's error is
  dropped and the write clear's error is returned. That return comes early,
  so the abort flags are left unchanged (lines 108-115).
- A timeout is any integer, negative ones included. The code compares it in
  three ways, and the model keeps all three. For the push, a negative timeout
  counts as disabled (`<= 0`, lines 46 and 65). For the zero-time tests of
  `SetReadDeadline`/`SetWriteDeadline` it counts as configured (`!= 0`, lines
  138 and 157). For `SetDeadline(zero)` it counts as not zero, so that
  direction's clear is not forwarded (`== 0`, lines 108 and 111).

One consequence of the code is proved as a lemma, `ResumeKeepsPastReadDeadline`.
Suppose a read timeout is configured. `SetReadDeadline(past)` records a push
time. A following `SetReadDeadline(zero)` lifts the abort but pushes nothing.
A Read within 250 ms of the first call then reaches the inner connection with
the past deadline still in force. The coalescing bound above holds only
while the invariant `Coalesced` holds. An explicit deadline setter breaks the
invariant until the next coalesced push.

## Model

| member | source | states |
|---|---|---|
| `DeadlineConn.PushRead` | internal/deadlineconn/deadlineconn.go:44-61 | a read deadline is pushed iff the read timeout is positive, reads are not aborted and strictly more than 250 ms passed since `readSetAt`; the push is exactly one `SetReadDeadline(now + timeout + 250 ms)` and sets `readSetAt := now`; otherwise no call and no field change; write side, flags and durations never change |
| `DeadlineConn.PushWrite` | internal/deadlineconn/deadlineconn.go:63-79 | the write-side mirror of `PushRead` |
| `DeadlineConn.ReadStep` | internal/deadlineconn/deadlineconn.go:82-89 | the inner Read is reached iff reads are not aborted; aborted: `(0, DeadlineExceeded)`, no inner call, no change; otherwise the read push, then one inner Read whose `(n, err)` is returned unchanged; write side and flags untouched |
| `DeadlineConn.WriteStep` | internal/deadlineconn/deadlineconn.go:92-99 | the write-side mirror of `ReadStep`; a partial write `(n > 0, err)` passes through unchanged |
| `DeadlineConn.SetDeadlineStep` | internal/deadlineconn/deadlineconn.go:103-132 | zero time: a zero read clear is forwarded iff the read timeout is 0, a zero write clear iff the write timeout is 0, once each; a failed write clear is returned with the fields unchanged; otherwise both flags are cleared and the read clear's error (or nil) is returned; timestamps are kept. A past time sets both flags and keeps the timestamps. A present or future time clears both flags and sets both timestamps to `now`. A non-zero time is always forwarded once as `SetDeadline(t)`, and its answer is returned |
| `DeadlineConn.SetReadDeadlineStep` | internal/deadlineconn/deadlineconn.go:137-149 | zero time with a read timeout configured: only `abortReads := false`, nil, no inner call; otherwise `abortReads` becomes "t is before now", and is therefore true for the zero time; `readSetAt := now`; `SetReadDeadline(t)` is forwarded and its answer returned; write side never touched |
| `DeadlineConn.SetWriteDeadlineStep` | internal/deadlineconn/deadlineconn.go:156-167 | the write-side mirror of `SetReadDeadlineStep` |
| `DeadlineConn.CloseStep` | internal/deadlineconn/deadlineconn.go:170-174 | both abort flags set, one inner Close whose error is returned, timestamps and durations unchanged |
| `DeadlineConn.WithReadDeadlineStep` | internal/deadlineconn/deadlineconn.go:177-180 | only the read timeout becomes `d`; timestamps, flags and the write timeout are kept; no inner call |
| `DeadlineConn.WithWriteDeadlineStep` | internal/deadlineconn/deadlineconn.go:183-186 | the write-side mirror of `WithReadDeadlineStep` |
| `DeadlineConn.DeadlineConn.New` | internal/deadlineconn/deadlineconn.go:189-193 | a new wrapper has zero durations, zero timestamps, no abort and no inner calls yet |
| `DeadlineConn.DeadlineConn.PushReadDeadline` | internal/deadlineconn/deadlineconn.go:44-61 | fields and inner-call trace change exactly as `PushRead` says |
| `DeadlineConn.DeadlineConn.PushWriteDeadline` | internal/deadlineconn/deadlineconn.go:63-79 | fields and trace change exactly as `PushWrite` says |
| `DeadlineConn.DeadlineConn.Read` | internal/deadlineconn/deadlineconn.go:82-89 | fields, trace and result exactly as `ReadStep` says |
| `DeadlineConn.DeadlineConn.Write` | internal/deadlineconn/deadlineconn.go:92-99 | fields, trace and result exactly as `WriteStep` says |
| `DeadlineConn.DeadlineConn.SetDeadline` | internal/deadlineconn/deadlineconn.go:103-132 | fields, trace and result exactly as `SetDeadlineStep` says |
| `DeadlineConn.DeadlineConn.SetReadDeadline` | internal/deadlineconn/deadlineconn.go:137-149 | fields, trace and result exactly as `SetReadDeadlineStep` says |
| `DeadlineConn.DeadlineConn.SetWriteDeadline` | internal/deadlineconn/deadlineconn.go:156-167 | fields, trace and result exactly as `SetWriteDeadlineStep` says |
| `DeadlineConn.DeadlineConn.Close` | internal/deadlineconn/deadlineconn.go:170-174 | fields, trace and result exactly as `CloseStep` says |
| `DeadlineConn.DeadlineConn.WithReadDeadline` | internal/deadlineconn/deadlineconn.go:177-180 | fields and trace change exactly as `WithReadDeadlineStep` says; the same object is returned |
| `DeadlineConn.DeadlineConn.WithWriteDeadline` | internal/deadlineconn/deadlineconn.go:183-186 | fields and trace change exactly as `WithWriteDeadlineStep` says; the same object is returned |
| `DeadlineConnRuns.AbortedStepStaysLocal` | internal/deadlineconn/deadlineconn.go:82-98 | with both flags set, a Read, Write or timeout configuration makes no inner call and keeps both flags; Read and Write answer `(0, DeadlineExceeded)` |
| `DeadlineConnRuns.AbortedStaysLocal` | internal/deadlineconn/deadlineconn.go:82-98 | with both flags set, any sequence of Reads, Writes and timeout configurations makes no inner call at all, keeps both flags, and every Read and Write answers `(0, DeadlineExceeded)` |
| `DeadlineConnRuns.AbortedSideStepStaysLocal` | internal/deadlineconn/deadlineconn.go:82-98 | with one direction aborted, an operation other than `SetDeadline` and that direction's setter keeps the flag, makes no inner I/O or deadline call of that direction, and a Read or Write of that direction answers `(0, DeadlineExceeded)` |
| `DeadlineConnRuns.AbortedSideStaysLocal` | internal/deadlineconn/deadlineconn.go:82-98 | with one direction aborted, any sequence of operations without `SetDeadline` and that direction's setter (the other direction, `Close` and timeout configurations included) keeps the flag, makes no inner I/O or deadline call of that direction, and every Read or Write of that direction answers `(0, DeadlineExceeded)` |
| `DeadlineConnRuns.CloseMakesIoLocal` | internal/deadlineconn/deadlineconn.go:170-174 | after Close, as long as only Reads, Writes and timeout configurations follow, the inner connection sees only the one Close, and every later Read and Write fails with `DeadlineExceeded` |
| `DeadlineConnRuns.PastDeadlineMakesIoLocal` | internal/deadlineconn/deadlineconn.go:120-125 | after `SetDeadline(t)` with a non-zero past `t`, the only inner call is `SetDeadline(t)`, its answer is returned, and, as long as only Reads, Writes and timeout configurations follow, every later Read and Write fails locally, whatever the timeouts |
| `DeadlineConnRuns.IoStepPushes` | internal/deadlineconn/deadlineconn.go:44-79 | a Read or Write pushes at most one deadline per direction; it pushes iff it is that direction's operation, the direction is armed and strictly more than 250 ms have passed; a push moves the push time to `now`, otherwise it is unchanged |
| `DeadlineConnRuns.NoPushAfterRecentPush` | internal/deadlineconn/deadlineconn.go:57-60 | if the last push is no earlier than `start`, Reads and Writes at clock readings in `[start, start + 250 ms]` push nothing in that direction |
| `DeadlineConnRuns.AtMostOnePushPerInterval` | internal/deadlineconn/deadlineconn.go:57-60 | Reads and Writes whose clock readings lie within one update interval push at most one deadline per direction, from any state |
| `DeadlineConnRuns.ReadKeepsReadCoalesced` | internal/deadlineconn/deadlineconn.go:56-60 | a Read keeps the read-side invariant: nothing pushed yet, or the deadline in force is `readSetAt + timeout + 250 ms` |
| `DeadlineConnRuns.WriteKeepsWriteCoalesced` | internal/deadlineconn/deadlineconn.go:74-78 | a Write keeps the write-side invariant |
| `DeadlineConnRuns.ReadKeepsWriteCoalesced` | internal/deadlineconn/deadlineconn.go:82-89 | a Read leaves the write-side invariant intact |
| `DeadlineConnRuns.WriteKeepsReadCoalesced` | internal/deadlineconn/deadlineconn.go:92-99 | a Write leaves the read-side invariant intact |
| `DeadlineConnRuns.IoStepKeepsCoalesced` | internal/deadlineconn/deadlineconn.go:82-99 | every Read and Write keeps the invariant of both directions |
| `DeadlineConnRuns.ReadDeadlineInForce` | internal/deadlineconn/deadlineconn.go:56-60 | after a Read on unaborted reads, the inner Read was made, and the read deadline in force is `now + timeout + 250 ms` if the Read pushed, else the one in force before |
| `DeadlineConnRuns.WriteDeadlineInForce` | internal/deadlineconn/deadlineconn.go:74-78 | the write-side mirror of `ReadDeadlineInForce` |
| `DeadlineConnRuns.ReadDeadlineBounded` | internal/deadlineconn/deadlineconn.go:56-60 | under the invariant, with a positive read timeout, no abort and a clock that has not gone back since the last push, a Read reaches the inner Read while the read deadline in force lies between `now + timeout` and `now + timeout + 250 ms` |
| `DeadlineConnRuns.WriteDeadlineBounded` | internal/deadlineconn/deadlineconn.go:74-78 | the write-side mirror of `ReadDeadlineBounded` |
| `DeadlineConnRuns.IoStepDeadlineBounded` | internal/deadlineconn/deadlineconn.go:44-98 | `ReadDeadlineBounded` and `WriteDeadlineBounded` for either kind of operation: an armed Read or Write under the invariant reaches its inner call with the deadline in force in `[now + timeout, now + timeout + 250 ms]` |
| `DeadlineConnRuns.IoRunKeepsCoalesced` | internal/deadlineconn/deadlineconn.go:44-98 | a run of Reads and Writes whose clock readings never go back keeps the invariant, the timeout and the abort flag of each direction, and leaves a push time no later than its last clock reading |
| `DeadlineConnRuns.IoRunDeadlineBounded` | internal/deadlineconn/deadlineconn.go:44-98 | in such a run, started under the invariant with the direction armed and with a push time no later than the first clock reading, the k-th operation reaches its inner call with the deadline in force of its direction in `[now + timeout, now + timeout + 250 ms]` |
| `DeadlineConnRuns.NewConnRunDeadlineBounded` | internal/deadlineconn/deadlineconn.go:44-98 | the same bound for every Read and Write of such a run on a freshly wrapped connection with positive read and write timeouts |
| `DeadlineConnRuns.TimingExample` | internal/deadlineconn/deadlineconn.go:56-60 | 100 ms timeout from a new wrapper: a read at `T` pushes `T + 350 ms`, a read at `T + 50 ms` pushes nothing, a read at `T + 260 ms` pushes `T + 610 ms` |
| `DeadlineConnRuns.ZeroReadDeadlineWithoutTimeoutAborts` | internal/deadlineconn/deadlineconn.go:137-148 | with no read timeout configured, `SetReadDeadline(zero)` forwards the zero deadline once and returns its answer; a following Read makes no inner call and fails with `(0, DeadlineExceeded)` |
| `DeadlineConnRuns.ZeroWriteDeadlineWithoutTimeoutAborts` | internal/deadlineconn/deadlineconn.go:156-166 | the write-side mirror: with no write timeout configured, a Write after `SetWriteDeadline(zero)` fails locally with `(0, DeadlineExceeded)` |
| `DeadlineConnRuns.ResumeKeepsPastReadDeadline` | internal/deadlineconn/deadlineconn.go:137-148 | with a read timeout configured, `SetReadDeadline(past)` then `SetReadDeadline(zero)` then a Read within 250 ms: the inner calls are only `SetReadDeadline(past)` and the Read, whose answer is returned, with the past deadline in force |

## Left out

- Concurrency is not modelled: the atomic loads and stores of the abort flags, the mutex, and the interplay of concurrent readers, writers and cancellers. The object is used by one caller at a time and the flags are plain booleans.
- The re-check of the abort flag after taking the lock (lines 52 and 71) is left out. In a sequential model it can never be true, so it is dead code.
- Real network I/O is not modelled. The inner connection is only a trace of calls, and its answers are parameters of each operation. The bytes a Read delivers into its buffer are not modelled; only the buffer's length is passed to the inner Read.
- The other `net.Conn` methods promoted from the embedded connection (`LocalAddr`, `RemoteAddr`) are left out. They involve no deadline state.
- The wall clock is a `now` parameter, one per call. The source reads the clock at each of these places: `time.Now()` in the pushes (lines 56 and 74), `time.Until` in `SetDeadline` (line 121), `time.Now()` twice more there (lines 129-130), and `time.Until` and `time.Now()` in `SetReadDeadline` (lines 146-147) and `SetWriteDeadline` (lines 164-165). The model uses the one `now` for all readings within a call.
- Go `time.Duration` overflow and the saturation of `now.Sub(zero)` are not modelled. Integers are unbounded. Clock readings are assumed to lie more than one update interval after the zero time, which is what makes the first push happen.
- `context.DeadlineExceeded` is one constant of the `Error` datatype. Transport errors are `Transport(code)`.
