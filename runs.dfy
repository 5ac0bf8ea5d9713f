/**
 Sequences of operations on one DeadlineConn, and what they do together: an
 abort is sticky as long as no deadline setter of its direction runs, a
 direction pushes at most one new deadline per update interval, and, for an
 armed direction, while `Coalesced` holds (no explicit deadline setter since
 the last coalesced push) and the clock does not go back, the deadline in
 force when an inner Read or Write starts leaves it between one timeout and
 one timeout plus one update interval.
 */
module DeadlineConnRuns {
  import opened DeadlineConn

  datatype Option<T> = None | Some(value: T)

  /** One call on the wrapper, with the clock reading it sees and what the inner connection answers. */
  datatype Op =
    | Read(now: ClockReading, size: nat, innerN: int, innerErr: Error)
    | Write(now: ClockReading, data: seq<byte>, innerN: int, innerErr: Error)
    | SetDeadline(t: int, now: ClockReading, readClearErr: Error, writeClearErr: Error, innerErr: Error)
    | SetReadDeadline(t: int, now: ClockReading, innerErr: Error)
    | SetWriteDeadline(t: int, now: ClockReading, innerErr: Error)
    | Close(innerErr: Error)
    | WithReadDeadline(d: int)
    | WithWriteDeadline(d: int)

  function Apply(f: Fields, op: Op): (o: Outcome) {
    match op
    case Read(now, size, n, e) => ReadStep(f, now, size, n, e)
    case Write(now, data, n, e) => WriteStep(f, now, data, n, e)
    case SetDeadline(t, now, re, we, e) => SetDeadlineStep(f, t, now, re, we, e)
    case SetReadDeadline(t, now, e) => SetReadDeadlineStep(f, t, now, e)
    case SetWriteDeadline(t, now, e) => SetWriteDeadlineStep(f, t, now, e)
    case Close(e) => CloseStep(f, e)
    case WithReadDeadline(d) => WithReadDeadlineStep(f, d)
    case WithWriteDeadline(d) => WithWriteDeadlineStep(f, d)
  }

  /** What a caller sees from one operation. */
  datatype Reply = Reply(n: int, err: Error)

  /** The fields after a run, every inner call it made in order, and one reply per operation. */
  datatype Trace = Trace(after: Fields, calls: seq<InnerCall>, replies: seq<Reply>)

  function RunOps(f: Fields, ops: seq<Op>): (r: Trace)
    ensures |r.replies| == |ops|
    decreases |ops|
  {
    if ops == [] then
      Trace(f, [], [])
    else
      var o := Apply(f, ops[0]);
      var rest := RunOps(o.after, ops[1..]);
      Trace(rest.after, o.calls + rest.calls, [Reply(o.n, o.err)] + rest.replies)
  }

  predicate IsIo(op: Op) {
    op.Read? || op.Write?
  }

  /** An operation that cannot clear an abort flag. */
  predicate KeepsAbort(op: Op) {
    op.Read? || op.Write? || op.WithReadDeadline? || op.WithWriteDeadline?
  }

  /** One operation that cannot clear an abort flag, on an aborted connection, stays local. */
  lemma AbortedStepStaysLocal(f: Fields, op: Op)
    requires f.abortReads && f.abortWrites && KeepsAbort(op)
    ensures Apply(f, op).calls == []
    ensures Apply(f, op).after.abortReads && Apply(f, op).after.abortWrites
    ensures IsIo(op) ==> Apply(f, op).n == 0 && Apply(f, op).err == DeadlineExceeded
  {
  }

  /**
   Once both directions are aborted, every Read and Write fails locally with
   DeadlineExceeded and nothing reaches the inner connection, as long as only
   Reads, Writes and timeout configurations follow.
   */
  lemma {:induction false} AbortedStaysLocal(f: Fields, ops: seq<Op>)
    requires f.abortReads && f.abortWrites
    requires forall i :: 0 <= i < |ops| ==> KeepsAbort(ops[i])
    ensures RunOps(f, ops).calls == []
    ensures RunOps(f, ops).after.abortReads && RunOps(f, ops).after.abortWrites
    ensures forall i :: 0 <= i < |ops| && IsIo(ops[i]) ==> RunOps(f, ops).replies[i] == Reply(0, DeadlineExceeded)
    decreases |ops|
  {
    if ops != [] {
      var o := Apply(f, ops[0]);
      var rest := RunOps(o.after, ops[1..]);
      AbortedStepStaysLocal(f, ops[0]);
      assert forall i :: 0 <= i < |ops[1..]| ==> ops[1..][i] == ops[i + 1];
      AbortedStaysLocal(o.after, ops[1..]);
      forall i | 0 < i < |ops|
        ensures RunOps(f, ops).replies[i] == rest.replies[i - 1]
      {
      }
    }
  }

  /**
   After Close, as long as only Reads, Writes and timeout configurations
   follow, the inner connection sees exactly one Close and no further I/O.
   */
  lemma CloseMakesIoLocal(f: Fields, closeErr: Error, ops: seq<Op>)
    requires forall i :: 0 <= i < |ops| ==> KeepsAbort(ops[i])
    ensures RunOps(f, [Close(closeErr)] + ops).calls == [InnerClose]
    ensures RunOps(f, [Close(closeErr)] + ops).replies[0] == Reply(0, closeErr)
    ensures forall i :: 0 <= i < |ops| && IsIo(ops[i]) ==>
      RunOps(f, [Close(closeErr)] + ops).replies[i + 1] == Reply(0, DeadlineExceeded)
  {
    var all := [Close(closeErr)] + ops;
    assert all[1..] == ops;
    AbortedStaysLocal(CloseStep(f, closeErr).after, ops);
  }

  /**
   A deadline in the past makes every later Read and Write fail locally, even
   with no timeout configured, as long as only Reads, Writes and timeout
   configurations follow; the past deadline itself is still forwarded once.
   */
  lemma PastDeadlineMakesIoLocal(f: Fields, t: int, now: ClockReading,
                                 readClearErr: Error, writeClearErr: Error, setErr: Error, ops: seq<Op>)
    requires !IsZero(t) && t < now
    requires forall i :: 0 <= i < |ops| ==> KeepsAbort(ops[i])
    ensures RunOps(f, [SetDeadline(t, now, readClearErr, writeClearErr, setErr)] + ops).calls == [InnerSetDeadline(t)]
    ensures RunOps(f, [SetDeadline(t, now, readClearErr, writeClearErr, setErr)] + ops).replies[0] == Reply(0, setErr)
    ensures forall i :: 0 <= i < |ops| && IsIo(ops[i]) ==>
      RunOps(f, [SetDeadline(t, now, readClearErr, writeClearErr, setErr)] + ops).replies[i + 1] == Reply(0, DeadlineExceeded)
  {
    var all := [SetDeadline(t, now, readClearErr, writeClearErr, setErr)] + ops;
    assert all[1..] == ops;
    AbortedStaysLocal(SetDeadlineStep(f, t, now, readClearErr, writeClearErr, setErr).after, ops);
  }

  /** An operation that cannot clear the abort flag of `dir`. */
  predicate KeepsAbortOf(op: Op, dir: Direction) {
    !op.SetDeadline? &&
    (dir == ReadSide ==> !op.SetReadDeadline?) &&
    (dir == WriteSide ==> !op.SetWriteDeadline?)
  }

  /** An inner call that does I/O in `dir` or sets a deadline for it alone. */
  predicate CallOnSide(c: InnerCall, dir: Direction) {
    match dir
    case ReadSide => c.InnerRead? || c.InnerSetReadDeadline?
    case WriteSide => c.InnerWrite? || c.InnerSetWriteDeadline?
  }

  /** One operation that cannot clear the flag of an aborted direction makes no call on that side. */
  lemma AbortedSideStepStaysLocal(f: Fields, op: Op, dir: Direction)
    requires Aborted(f, dir) && KeepsAbortOf(op, dir)
    ensures Aborted(Apply(f, op).after, dir)
    ensures forall i :: 0 <= i < |Apply(f, op).calls| ==> !CallOnSide(Apply(f, op).calls[i], dir)
    ensures IsIo(op) && Side(op) == dir ==> Apply(f, op).n == 0 && Apply(f, op).err == DeadlineExceeded
  {
  }

  /**
   While one direction is aborted, no Read or Write of that direction and no
   deadline of that direction alone reaches the inner connection, and every
   Read or Write of that direction fails locally with DeadlineExceeded, as
   long as neither `SetDeadline` nor that direction's own setter runs. The
   other direction, `Close` and the timeout configurations may run freely.
   */
  lemma {:induction false} AbortedSideStaysLocal(f: Fields, ops: seq<Op>, dir: Direction)
    requires Aborted(f, dir)
    requires forall i :: 0 <= i < |ops| ==> KeepsAbortOf(ops[i], dir)
    ensures Aborted(RunOps(f, ops).after, dir)
    ensures forall i :: 0 <= i < |RunOps(f, ops).calls| ==> !CallOnSide(RunOps(f, ops).calls[i], dir)
    ensures forall i :: 0 <= i < |ops| && IsIo(ops[i]) && Side(ops[i]) == dir ==>
      RunOps(f, ops).replies[i] == Reply(0, DeadlineExceeded)
    decreases |ops|
  {
    if ops != [] {
      var o := Apply(f, ops[0]);
      var rest := RunOps(o.after, ops[1..]);
      AbortedSideStepStaysLocal(f, ops[0], dir);
      assert forall i :: 0 <= i < |ops[1..]| ==> ops[1..][i] == ops[i + 1];
      AbortedSideStaysLocal(o.after, ops[1..], dir);
      var all := o.calls + rest.calls;
      forall i | 0 <= i < |all|
        ensures !CallOnSide(all[i], dir)
      {
        if i >= |o.calls| {
          assert all[i] == rest.calls[i - |o.calls|];
        }
      }
      forall i | 0 < i < |ops|
        ensures RunOps(f, ops).replies[i] == rest.replies[i - 1]
      {
      }
    }
  }

  datatype Direction = ReadSide | WriteSide

  function Side(op: Op): (dir: Direction)
    requires IsIo(op)
  {
    if op.Read? then ReadSide else WriteSide
  }

  function Timeout(f: Fields, dir: Direction): (d: int) {
    match dir
    case ReadSide => f.readDeadline
    case WriteSide => f.writeDeadline
  }

  function SetAt(f: Fields, dir: Direction): (t: int) {
    match dir
    case ReadSide => f.readSetAt
    case WriteSide => f.writeSetAt
  }

  predicate Aborted(f: Fields, dir: Direction) {
    match dir
    case ReadSide => f.abortReads
    case WriteSide => f.abortWrites
  }

  /** A coalesced push for the direction: its own deadline setter. */
  predicate IsPush(c: InnerCall, dir: Direction) {
    match dir
    case ReadSide => c.InnerSetReadDeadline?
    case WriteSide => c.InnerSetWriteDeadline?
  }

  function CountPushes(calls: seq<InnerCall>, dir: Direction): (count: nat) {
    if calls == [] then 0
    else (if IsPush(calls[0], dir) then 1 else 0) + CountPushes(calls[1..], dir)
  }

  lemma {:induction false} CountPushesAppend(a: seq<InnerCall>, b: seq<InnerCall>, dir: Direction)
    ensures CountPushes(a + b, dir) == CountPushes(a, dir) + CountPushes(b, dir)
  {
    if a == [] {
      assert a + b == b;
    } else {
      assert (a + b)[1..] == a[1..] + b;
      CountPushesAppend(a[1..], b, dir);
    }
  }

  /**
   A single Read or Write pushes at most one deadline for a direction; it pushes
   exactly when it is that direction's operation, the direction is armed, and
   strictly more than one update interval has passed since the last push, and
   then the push time becomes the call's clock reading.
   */
  lemma IoStepPushes(f: Fields, op: Op, dir: Direction)
    requires IsIo(op)
    ensures CountPushes(Apply(f, op).calls, dir) <= 1
    ensures CountPushes(Apply(f, op).calls, dir) == 1 <==>
      Side(op) == dir && Timeout(f, dir) > 0 && !Aborted(f, dir) && op.now - SetAt(f, dir) > UpdateInterval
    ensures CountPushes(Apply(f, op).calls, dir) == 1 ==> SetAt(Apply(f, op).after, dir) == op.now
    ensures CountPushes(Apply(f, op).calls, dir) == 0 ==> SetAt(Apply(f, op).after, dir) == SetAt(f, dir)
    ensures Timeout(Apply(f, op).after, dir) == Timeout(f, dir) && Aborted(Apply(f, op).after, dir) == Aborted(f, dir)
  {
    var o := Apply(f, op);
    var io := if op.Read? then InnerRead(op.size) else InnerWrite(op.data);
    var push := if op.Read? then PushRead(f, op.now) else PushWrite(f, op.now);
    if !Aborted(f, Side(op)) {
      assert o.calls == push.calls + [io];
      CountPushesAppend(push.calls, [io], dir);
    }
  }

  /** Every Read or Write in the run happens no earlier than `start` and at most one update interval after it. */
  predicate IoWithin(ops: seq<Op>, start: int) {
    forall i :: 0 <= i < |ops| ==> IsIo(ops[i]) && start <= ops[i].now <= start + UpdateInterval
  }

  lemma {:induction false} NoPushAfterRecentPush(f: Fields, ops: seq<Op>, start: int, dir: Direction)
    requires IoWithin(ops, start)
    requires SetAt(f, dir) >= start
    ensures CountPushes(RunOps(f, ops).calls, dir) == 0
    decreases |ops|
  {
    if ops != [] {
      var o := Apply(f, ops[0]);
      IoStepPushes(f, ops[0], dir);
      assert forall i :: 0 <= i < |ops[1..]| ==> ops[1..][i] == ops[i + 1];
      NoPushAfterRecentPush(o.after, ops[1..], start, dir);
      CountPushesAppend(o.calls, RunOps(o.after, ops[1..]).calls, dir);
    }
  }

  /**
   Coalescing: Reads and Writes whose clock readings all lie within one update
   interval push at most one new deadline per direction, whatever state they
   start from.
   */
  lemma {:induction false} AtMostOnePushPerInterval(f: Fields, ops: seq<Op>, start: int, dir: Direction)
    requires IoWithin(ops, start)
    ensures CountPushes(RunOps(f, ops).calls, dir) <= 1
    decreases |ops|
  {
    if ops != [] {
      var o := Apply(f, ops[0]);
      IoStepPushes(f, ops[0], dir);
      assert forall i :: 0 <= i < |ops[1..]| ==> ops[1..][i] == ops[i + 1];
      CountPushesAppend(o.calls, RunOps(o.after, ops[1..]).calls, dir);
      if CountPushes(o.calls, dir) == 0 {
        AtMostOnePushPerInterval(o.after, ops[1..], start, dir);
      } else {
        NoPushAfterRecentPush(o.after, ops[1..], start, dir);
      }
    }
  }

  /** A call that replaces the deadline in force for the direction. */
  predicate SetsDeadline(c: InnerCall, dir: Direction) {
    IsPush(c, dir) || c.InnerSetDeadline?
  }

  /** The deadline in force on the inner connection for the direction after these calls, if any was set. */
  function LastDeadline(calls: seq<InnerCall>, dir: Direction): (d: Option<int>) {
    if calls == [] then None
    else if SetsDeadline(calls[|calls| - 1], dir) then Some(calls[|calls| - 1].t)
    else LastDeadline(calls[..|calls| - 1], dir)
  }

  lemma LastDeadlineSnoc(calls: seq<InnerCall>, c: InnerCall, dir: Direction)
    ensures LastDeadline(calls + [c], dir) == if SetsDeadline(c, dir) then Some(c.t) else LastDeadline(calls, dir)
  {
    assert (calls + [c])[..|calls|] == calls;
  }

  /**
   The invariant of coalescing for a direction: either nothing has been pushed
   yet, or the deadline in force is the last push time plus the timeout plus
   one update interval.
   */
  predicate Coalesced(f: Fields, calls: seq<InnerCall>, dir: Direction) {
    SetAt(f, dir) == ZeroTime ||
    LastDeadline(calls, dir) == Some(SetAt(f, dir) + Timeout(f, dir) + UpdateInterval)
  }

  /** Calls that set no deadline for the direction leave the deadline in force alone. */
  lemma {:induction false} LastDeadlineSkips(calls: seq<InnerCall>, extra: seq<InnerCall>, dir: Direction)
    requires forall i :: 0 <= i < |extra| ==> !SetsDeadline(extra[i], dir)
    ensures LastDeadline(calls + extra, dir) == LastDeadline(calls, dir)
    decreases |extra|
  {
    if extra == [] {
      assert calls + extra == calls;
    } else {
      var init := extra[..|extra| - 1];
      assert calls + extra == (calls + init) + [extra[|extra| - 1]];
      LastDeadlineSnoc(calls + init, extra[|extra| - 1], dir);
      LastDeadlineSkips(calls, init, dir);
    }
  }

  /** The deadline in force after an optional push followed by an I/O call. */
  lemma LastDeadlineAfterIo(calls: seq<InnerCall>, push: seq<InnerCall>, io: InnerCall, dir: Direction)
    requires |push| <= 1 && !SetsDeadline(io, dir)
    ensures LastDeadline(calls + push + [io], dir) ==
      if push != [] && SetsDeadline(push[0], dir) then Some(push[0].t) else LastDeadline(calls, dir)
  {
    LastDeadlineSnoc(calls + push, io, dir);
    if push == [] {
      assert calls + push == calls;
    } else {
      assert push == [push[0]];
      LastDeadlineSnoc(calls, push[0], dir);
    }
  }

  /** A Read keeps the read side's coalescing invariant. */
  lemma ReadKeepsReadCoalesced(f: Fields, calls: seq<InnerCall>, now: ClockReading, size: nat, n: int, e: Error)
    requires Coalesced(f, calls, ReadSide)
    ensures Coalesced(ReadStep(f, now, size, n, e).after, calls + ReadStep(f, now, size, n, e).calls, ReadSide)
  {
    var o := ReadStep(f, now, size, n, e);
    if f.abortReads {
      assert calls + o.calls == calls;
    } else {
      var p := PushRead(f, now).calls;
      assert calls + o.calls == calls + p + [InnerRead(size)];
      LastDeadlineAfterIo(calls, p, InnerRead(size), ReadSide);
    }
  }

  /** A Write keeps the write side's coalescing invariant. */
  lemma WriteKeepsWriteCoalesced(f: Fields, calls: seq<InnerCall>, now: ClockReading, data: seq<byte>, n: int, e: Error)
    requires Coalesced(f, calls, WriteSide)
    ensures Coalesced(WriteStep(f, now, data, n, e).after, calls + WriteStep(f, now, data, n, e).calls, WriteSide)
  {
    var o := WriteStep(f, now, data, n, e);
    if f.abortWrites {
      assert calls + o.calls == calls;
    } else {
      var p := PushWrite(f, now).calls;
      assert calls + o.calls == calls + p + [InnerWrite(data)];
      LastDeadlineAfterIo(calls, p, InnerWrite(data), WriteSide);
    }
  }

  /** A Read leaves the write side's deadline and timestamps alone. */
  lemma ReadKeepsWriteCoalesced(f: Fields, calls: seq<InnerCall>, now: ClockReading, size: nat, n: int, e: Error)
    requires Coalesced(f, calls, WriteSide)
    ensures Coalesced(ReadStep(f, now, size, n, e).after, calls + ReadStep(f, now, size, n, e).calls, WriteSide)
  {
    var o := ReadStep(f, now, size, n, e);
    assert forall i :: 0 <= i < |o.calls| ==> o.calls[i].InnerSetReadDeadline? || o.calls[i].InnerRead?;
    LastDeadlineSkips(calls, o.calls, WriteSide);
  }

  /** A Write leaves the read side's deadline and timestamps alone. */
  lemma WriteKeepsReadCoalesced(f: Fields, calls: seq<InnerCall>, now: ClockReading, data: seq<byte>, n: int, e: Error)
    requires Coalesced(f, calls, ReadSide)
    ensures Coalesced(WriteStep(f, now, data, n, e).after, calls + WriteStep(f, now, data, n, e).calls, ReadSide)
  {
    var o := WriteStep(f, now, data, n, e);
    assert forall i :: 0 <= i < |o.calls| ==> o.calls[i].InnerSetWriteDeadline? || o.calls[i].InnerWrite?;
    LastDeadlineSkips(calls, o.calls, ReadSide);
  }

  /** Reads and Writes keep the coalescing invariant of both directions. */
  lemma IoStepKeepsCoalesced(f: Fields, calls: seq<InnerCall>, op: Op, dir: Direction)
    requires IsIo(op)
    requires Coalesced(f, calls, dir)
    ensures Coalesced(Apply(f, op).after, calls + Apply(f, op).calls, dir)
  {
    match (op, dir)
    case (Read(now, size, n, e), ReadSide) => ReadKeepsReadCoalesced(f, calls, now, size, n, e);
    case (Read(now, size, n, e), WriteSide) => ReadKeepsWriteCoalesced(f, calls, now, size, n, e);
    case (Write(now, data, n, e), WriteSide) => WriteKeepsWriteCoalesced(f, calls, now, data, n, e);
    case (Write(now, data, n, e), ReadSide) => WriteKeepsReadCoalesced(f, calls, now, data, n, e);
  }

  /** After an unaborted Read, the read deadline in force is the one it pushed, or else the one in force before. */
  lemma ReadDeadlineInForce(f: Fields, calls: seq<InnerCall>, now: ClockReading, size: nat, n: int, e: Error)
    requires !f.abortReads
    ensures InnerRead(size) in ReadStep(f, now, size, n, e).calls
    ensures LastDeadline(calls + ReadStep(f, now, size, n, e).calls, ReadSide) ==
      if PushRead(f, now).calls != [] then Some(now + f.readDeadline + UpdateInterval) else LastDeadline(calls, ReadSide)
  {
    var p := PushRead(f, now).calls;
    assert calls + ReadStep(f, now, size, n, e).calls == calls + p + [InnerRead(size)];
    LastDeadlineAfterIo(calls, p, InnerRead(size), ReadSide);
  }

  /**
   Bounded blocking: when a Read with a read timeout configured reaches the
   inner connection under the coalescing invariant, the read deadline in force
   leaves it at least the timeout and at most the timeout plus one update interval.
   */
  lemma ReadDeadlineBounded(f: Fields, calls: seq<InnerCall>, now: ClockReading, size: nat, n: int, e: Error)
    requires f.readDeadline > 0 && !f.abortReads
    requires f.readSetAt <= now
    requires Coalesced(f, calls, ReadSide)
    ensures InnerRead(size) in ReadStep(f, now, size, n, e).calls
    ensures LastDeadline(calls + ReadStep(f, now, size, n, e).calls, ReadSide).Some?
    ensures now + f.readDeadline <= LastDeadline(calls + ReadStep(f, now, size, n, e).calls, ReadSide).value
    ensures LastDeadline(calls + ReadStep(f, now, size, n, e).calls, ReadSide).value <=
      now + f.readDeadline + UpdateInterval
  {
    ReadDeadlineInForce(f, calls, now, size, n, e);
    if PushRead(f, now).calls == [] {
      // no push: the last one was at most one interval ago, so its deadline is still in force
      assert f.readSetAt != ZeroTime && now - f.readSetAt <= UpdateInterval;
    }
  }

  /** After an unaborted Write, the write deadline in force is the one it pushed, or else the one in force before. */
  lemma WriteDeadlineInForce(f: Fields, calls: seq<InnerCall>, now: ClockReading, data: seq<byte>, n: int, e: Error)
    requires !f.abortWrites
    ensures InnerWrite(data) in WriteStep(f, now, data, n, e).calls
    ensures LastDeadline(calls + WriteStep(f, now, data, n, e).calls, WriteSide) ==
      if PushWrite(f, now).calls != [] then Some(now + f.writeDeadline + UpdateInterval) else LastDeadline(calls, WriteSide)
  {
    var p := PushWrite(f, now).calls;
    assert calls + WriteStep(f, now, data, n, e).calls == calls + p + [InnerWrite(data)];
    LastDeadlineAfterIo(calls, p, InnerWrite(data), WriteSide);
  }

  /** The write-side mirror of ReadDeadlineBounded. */
  lemma WriteDeadlineBounded(f: Fields, calls: seq<InnerCall>, now: ClockReading, data: seq<byte>, n: int, e: Error)
    requires f.writeDeadline > 0 && !f.abortWrites
    requires f.writeSetAt <= now
    requires Coalesced(f, calls, WriteSide)
    ensures InnerWrite(data) in WriteStep(f, now, data, n, e).calls
    ensures LastDeadline(calls + WriteStep(f, now, data, n, e).calls, WriteSide).Some?
    ensures now + f.writeDeadline <= LastDeadline(calls + WriteStep(f, now, data, n, e).calls, WriteSide).value
    ensures LastDeadline(calls + WriteStep(f, now, data, n, e).calls, WriteSide).value <=
      now + f.writeDeadline + UpdateInterval
  {
    WriteDeadlineInForce(f, calls, now, data, n, e);
    if PushWrite(f, now).calls == [] {
      // no push: the last one was at most one interval ago, so its deadline is still in force
      assert f.writeSetAt != ZeroTime && now - f.writeSetAt <= UpdateInterval;
    }
  }

  /** The inner I/O call a Read or Write makes. */
  function IoCall(op: Op): (c: InnerCall)
    requires IsIo(op)
  {
    if op.Read? then InnerRead(op.size) else InnerWrite(op.data)
  }

  /** ReadDeadlineBounded and WriteDeadlineBounded, for either kind of I/O operation. */
  lemma IoStepDeadlineBounded(f: Fields, calls: seq<InnerCall>, op: Op)
    requires IsIo(op)
    requires Timeout(f, Side(op)) > 0 && !Aborted(f, Side(op))
    requires SetAt(f, Side(op)) <= op.now
    requires Coalesced(f, calls, Side(op))
    ensures IoCall(op) in Apply(f, op).calls
    ensures LastDeadline(calls + Apply(f, op).calls, Side(op)).Some?
    ensures op.now + Timeout(f, Side(op)) <= LastDeadline(calls + Apply(f, op).calls, Side(op)).value
    ensures LastDeadline(calls + Apply(f, op).calls, Side(op)).value <= op.now + Timeout(f, Side(op)) + UpdateInterval
  {
    match op
    case Read(now, size, n, e) => ReadDeadlineBounded(f, calls, now, size, n, e);
    case Write(now, data, n, e) => WriteDeadlineBounded(f, calls, now, data, n, e);
  }

  /** A run of Reads and Writes whose clock readings never go back. */
  predicate IoRun(ops: seq<Op>) {
    (forall i :: 0 <= i < |ops| ==> IsIo(ops[i])) &&
    (forall i, j :: 0 <= i < j < |ops| ==> IsIo(ops[i]) && IsIo(ops[j]) && ops[i].now <= ops[j].now)
  }

  /** Dropping the first operation of a run of Reads and Writes leaves one whose first clock reading is no earlier. */
  lemma IoRunTail(ops: seq<Op>)
    requires IoRun(ops) && ops != []
    ensures IoRun(ops[1..])
    ensures |ops| > 1 ==> IsIo(ops[1]) && ops[1..][0] == ops[1] && ops[0].now <= ops[1].now
  {
  }

  /** One Read or Write keeps the coalescing invariant, the timeout and the abort flag, and pushes no later than its own clock reading. */
  lemma IoStepKeepsRun(f: Fields, calls: seq<InnerCall>, op: Op, dir: Direction)
    requires IsIo(op) && Coalesced(f, calls, dir) && SetAt(f, dir) <= op.now
    ensures Coalesced(Apply(f, op).after, calls + Apply(f, op).calls, dir)
    ensures Timeout(Apply(f, op).after, dir) == Timeout(f, dir)
    ensures Aborted(Apply(f, op).after, dir) == Aborted(f, dir)
    ensures SetAt(Apply(f, op).after, dir) <= op.now
  {
    IoStepKeepsCoalesced(f, calls, op, dir);
    IoStepPushes(f, op, dir);
  }

  /** A prefix of a run of Reads and Writes is one too, and its last clock reading is no later than the next one. */
  lemma IoRunPrefix(ops: seq<Op>, k: nat)
    requires IoRun(ops) && k < |ops|
    ensures IoRun(ops[..k])
    ensures k > 0 ==> ops[..k][0] == ops[0] && ops[..k][k - 1] == ops[k - 1] && ops[k - 1].now <= ops[k].now
  {
  }

  /**
   A run of Reads and Writes whose clock readings never go back keeps the
   coalescing invariant, the direction's timeout and abort flag, and leaves a
   push time no later than its last clock reading.
   */
  lemma {:induction false} IoRunKeepsCoalesced(f: Fields, calls: seq<InnerCall>, ops: seq<Op>, dir: Direction)
    requires IoRun(ops) && Coalesced(f, calls, dir)
    requires ops != [] ==> SetAt(f, dir) <= ops[0].now
    ensures Coalesced(RunOps(f, ops).after, calls + RunOps(f, ops).calls, dir)
    ensures Timeout(RunOps(f, ops).after, dir) == Timeout(f, dir)
    ensures Aborted(RunOps(f, ops).after, dir) == Aborted(f, dir)
    ensures SetAt(RunOps(f, ops).after, dir) <= if ops == [] then SetAt(f, dir) else ops[|ops| - 1].now
    decreases |ops|
  {
    if ops != [] {
      var o := Apply(f, ops[0]);
      IoStepKeepsRun(f, calls, ops[0], dir);
      IoRunTail(ops);
      IoRunKeepsCoalesced(o.after, calls + o.calls, ops[1..], dir);
      var rest := RunOps(o.after, ops[1..]);
      assert RunOps(f, ops).after == rest.after && RunOps(f, ops).calls == o.calls + rest.calls;
      assert calls + o.calls + rest.calls == calls + (o.calls + rest.calls);
      if |ops| > 1 {
        assert ops[1..][|ops| - 2] == ops[|ops| - 1];
      }
    } else {
      assert calls + [] == calls;
    }
  }

  /**
   Bounded blocking along a run: in a run of Reads and Writes whose clock
   readings never go back, started under the coalescing invariant with the
   direction armed, the k-th operation of that direction reaches the inner
   connection with a deadline in force between its clock reading plus the
   timeout and that plus one update interval.
   */
  lemma IoRunDeadlineBounded(f: Fields, calls: seq<InnerCall>, ops: seq<Op>, k: nat)
    requires IoRun(ops) && k < |ops|
    requires Timeout(f, Side(ops[k])) > 0 && !Aborted(f, Side(ops[k]))
    requires Coalesced(f, calls, Side(ops[k])) && SetAt(f, Side(ops[k])) <= ops[0].now
    ensures IoCall(ops[k]) in Apply(RunOps(f, ops[..k]).after, ops[k]).calls
    ensures LastDeadline(calls + RunOps(f, ops[..k]).calls + Apply(RunOps(f, ops[..k]).after, ops[k]).calls,
                         Side(ops[k])).Some?
    ensures ops[k].now + Timeout(f, Side(ops[k])) <=
      LastDeadline(calls + RunOps(f, ops[..k]).calls + Apply(RunOps(f, ops[..k]).after, ops[k]).calls,
                   Side(ops[k])).value
    ensures LastDeadline(calls + RunOps(f, ops[..k]).calls + Apply(RunOps(f, ops[..k]).after, ops[k]).calls,
                         Side(ops[k])).value <= ops[k].now + Timeout(f, Side(ops[k])) + UpdateInterval
  {
    var dir := Side(ops[k]);
    IoRunPrefix(ops, k);
    IoRunKeepsCoalesced(f, calls, ops[..k], dir);
    var pre := RunOps(f, ops[..k]);
    IoStepDeadlineBounded(pre.after, calls + pre.calls, ops[k]);
  }

  /**
   The same bound for a freshly wrapped connection with positive read and
   write timeouts and no inner calls made yet.
   */
  lemma NewConnRunDeadlineBounded(readTimeout: int, writeTimeout: int, ops: seq<Op>, k: nat)
    requires readTimeout > 0 && writeTimeout > 0
    requires IoRun(ops) && k < |ops|
    ensures IoCall(ops[k]) in
      Apply(RunOps(Initial.(readDeadline := readTimeout, writeDeadline := writeTimeout), ops[..k]).after, ops[k]).calls
    ensures LastDeadline(
      RunOps(Initial.(readDeadline := readTimeout, writeDeadline := writeTimeout), ops[..k]).calls +
      Apply(RunOps(Initial.(readDeadline := readTimeout, writeDeadline := writeTimeout), ops[..k]).after, ops[k]).calls,
      Side(ops[k])).Some?
    ensures ops[k].now + Timeout(Initial.(readDeadline := readTimeout, writeDeadline := writeTimeout), Side(ops[k])) <=
      LastDeadline(
        RunOps(Initial.(readDeadline := readTimeout, writeDeadline := writeTimeout), ops[..k]).calls +
        Apply(RunOps(Initial.(readDeadline := readTimeout, writeDeadline := writeTimeout), ops[..k]).after, ops[k]).calls,
        Side(ops[k])).value
    ensures LastDeadline(
      RunOps(Initial.(readDeadline := readTimeout, writeDeadline := writeTimeout), ops[..k]).calls +
      Apply(RunOps(Initial.(readDeadline := readTimeout, writeDeadline := writeTimeout), ops[..k]).after, ops[k]).calls,
      Side(ops[k])).value <=
      ops[k].now + Timeout(Initial.(readDeadline := readTimeout, writeDeadline := writeTimeout), Side(ops[k])) + UpdateInterval
  {
    var f := Initial.(readDeadline := readTimeout, writeDeadline := writeTimeout);
    IoRunDeadlineBounded(f, [], ops, k);
    assert [] + RunOps(f, ops[..k]).calls == RunOps(f, ops[..k]).calls;
  }

  /**
   The timing example: with a 100 ms read timeout, a first read at `base`
   pushes base + 350 ms, a read 50 ms later pushes nothing, and a read 260 ms
   after `base` pushes base + 610 ms.
   */
  lemma TimingExample(base: ClockReading, size: nat, n: int, e: Error)
    ensures RunOps(Initial.(readDeadline := 100 * Millisecond),
                   [Read(base, size, n, e),
                    Read(base + 50 * Millisecond, size, n, e),
                    Read(base + 260 * Millisecond, size, n, e)]).calls ==
      [InnerSetReadDeadline(base + 350 * Millisecond), InnerRead(size),
       InnerRead(size),
       InnerSetReadDeadline(base + 610 * Millisecond), InnerRead(size)]
  {
    var f0 := Initial.(readDeadline := 100 * Millisecond);
    var ops := [Read(base, size, n, e),
                Read(base + 50 * Millisecond, size, n, e),
                Read(base + 260 * Millisecond, size, n, e)];
    var o1 := Apply(f0, ops[0]);
    var o2 := Apply(o1.after, ops[1]);
    var o3 := Apply(o2.after, ops[2]);
    assert ops[1..][1..][1..] == [];
    assert RunOps(o2.after, ops[1..][1..]).calls == o3.calls;
  }

  /**
   An explicit read deadline in the past outlives a later zero SetReadDeadline
   when a read timeout is configured: the abort is lifted, but a Read within one
   update interval of the explicit one reaches the inner connection without a
   new push, so the past deadline is the one in force.
   */
  lemma ResumeKeepsPastReadDeadline(f: Fields, past: int, now: ClockReading, later: ClockReading,
                                    setErr: Error, size: nat, n: int, e: Error)
    requires f.readDeadline > 0
    requires !IsZero(past) && past < now
    requires now <= later <= now + UpdateInterval
    ensures RunOps(f, [SetReadDeadline(past, now, setErr), SetReadDeadline(ZeroTime, later, Nil),
                       Read(later, size, n, e)]).calls == [InnerSetReadDeadline(past), InnerRead(size)]
    ensures RunOps(f, [SetReadDeadline(past, now, setErr), SetReadDeadline(ZeroTime, later, Nil),
                       Read(later, size, n, e)]).replies[2] == Reply(n, e)
    ensures LastDeadline(RunOps(f, [SetReadDeadline(past, now, setErr), SetReadDeadline(ZeroTime, later, Nil),
                                    Read(later, size, n, e)]).calls, ReadSide) == Some(past)
  {
    var ops := [SetReadDeadline(past, now, setErr), SetReadDeadline(ZeroTime, later, Nil), Read(later, size, n, e)];
    var o1 := Apply(f, ops[0]);
    var o2 := Apply(o1.after, ops[1]);
    var o3 := Apply(o2.after, ops[2]);
    assert o3.calls == [InnerRead(size)];
    assert ops[1..][1..][1..] == [];
    assert RunOps(o2.after, ops[1..][1..]).calls == o3.calls;
    assert [InnerSetReadDeadline(past), InnerRead(size)][..1] == [InnerSetReadDeadline(past)];
  }

  /**
   With no read timeout configured, the zero time passed to SetReadDeadline is
   a time in the past: the zero deadline is forwarded, but reads are aborted,
   so the next Read fails locally with DeadlineExceeded.
   */
  lemma ZeroReadDeadlineWithoutTimeoutAborts(f: Fields, now: ClockReading, later: ClockReading,
                                             setErr: Error, size: nat, n: int, e: Error)
    requires f.readDeadline == 0
    ensures RunOps(f, [SetReadDeadline(ZeroTime, now, setErr), Read(later, size, n, e)]).calls ==
      [InnerSetReadDeadline(ZeroTime)]
    ensures RunOps(f, [SetReadDeadline(ZeroTime, now, setErr), Read(later, size, n, e)]).replies ==
      [Reply(0, setErr), Reply(0, DeadlineExceeded)]
  {
    var ops := [SetReadDeadline(ZeroTime, now, setErr), Read(later, size, n, e)];
    var o1 := Apply(f, ops[0]);
    var o2 := Apply(o1.after, ops[1]);
    assert o1.after.abortReads;
    assert o2 == Outcome(o1.after, [], 0, DeadlineExceeded);
    assert ops[1..][1..] == [];
    assert RunOps(o1.after, ops[1..]) == Trace(o2.after, o2.calls, [Reply(0, DeadlineExceeded)]);
  }

  /** The write-side mirror of ZeroReadDeadlineWithoutTimeoutAborts. */
  lemma ZeroWriteDeadlineWithoutTimeoutAborts(f: Fields, now: ClockReading, later: ClockReading,
                                              setErr: Error, data: seq<byte>, n: int, e: Error)
    requires f.writeDeadline == 0
    ensures RunOps(f, [SetWriteDeadline(ZeroTime, now, setErr), Write(later, data, n, e)]).calls ==
      [InnerSetWriteDeadline(ZeroTime)]
    ensures RunOps(f, [SetWriteDeadline(ZeroTime, now, setErr), Write(later, data, n, e)]).replies ==
      [Reply(0, setErr), Reply(0, DeadlineExceeded)]
  {
    var ops := [SetWriteDeadline(ZeroTime, now, setErr), Write(later, data, n, e)];
    var o1 := Apply(f, ops[0]);
    var o2 := Apply(o1.after, ops[1]);
    assert o1.after.abortWrites;
    assert o2 == Outcome(o1.after, [], 0, DeadlineExceeded);
    assert ops[1..][1..] == [];
    assert RunOps(o1.after, ops[1..]) == Trace(o2.after, o2.calls, [Reply(0, DeadlineExceeded)]);
  }
}
