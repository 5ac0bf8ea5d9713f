/**
 A model of MinIO's DeadlineConn: a wrapper around a stream connection that
 enforces a read timeout and a write timeout, pushing absolute deadlines to the
 inner connection at most once per update interval, and failing reads or writes
 locally once an abort has been requested.

 Time is an integer count of nanoseconds. The inner connection is represented
 only by the calls the wrapper makes on it (a ghost trace); whatever the inner
 connection answers is a parameter of the operation that makes the call.
 */
module DeadlineConn {

  /** One millisecond, in nanoseconds (the unit of a Go duration). */
  const Millisecond: int := 1_000_000

  /** The minimum time between two deadline updates in one direction. */
  const UpdateInterval: int := 250 * Millisecond

  /** The zero time value, which callers pass to mean "no deadline". */
  const ZeroTime: int := 0

  predicate IsZero(t: int) {
    t == ZeroTime
  }

  /**
   A reading of the wall clock. The zero time lies far in the past (the first
   instant of year 1), so every reading is more than one update interval after it.
   */
  type ClockReading = t: int | t > ZeroTime + UpdateInterval witness ZeroTime + UpdateInterval + 1

  newtype byte = x: int | 0 <= x < 256

  /** Errors: none, the local deadline-exceeded failure, or one reported by the inner connection. */
  datatype Error = Nil | DeadlineExceeded | Transport(code: int)

  /** A call made on the inner connection. */
  datatype InnerCall =
    | InnerSetReadDeadline(t: int)
    | InnerSetWriteDeadline(t: int)
    | InnerSetDeadline(t: int)
    | InnerRead(size: nat)
    | InnerWrite(data: seq<byte>)
    | InnerClose

  /** The wrapper's own fields, as a value. */
  datatype Fields = Fields(
    readDeadline: int,
    readSetAt: int,
    writeDeadline: int,
    writeSetAt: int,
    abortReads: bool,
    abortWrites: bool)

  /** The fields of a freshly wrapped connection: no timeouts, nothing pushed, nothing aborted. */
  const Initial: Fields := Fields(0, ZeroTime, 0, ZeroTime, false, false)

  /** What one operation does: the fields afterwards, the inner calls it made in order, and its result. */
  datatype Outcome = Outcome(after: Fields, calls: seq<InnerCall>, n: int, err: Error)

  /** The read-side fields are the same in both values. */
  predicate SameReadSide(f: Fields, g: Fields) {
    f.readDeadline == g.readDeadline && f.readSetAt == g.readSetAt && f.abortReads == g.abortReads
  }

  /** The write-side fields are the same in both values. */
  predicate SameWriteSide(f: Fields, g: Fields) {
    f.writeDeadline == g.writeDeadline && f.writeSetAt == g.writeSetAt && f.abortWrites == g.abortWrites
  }

  /**
   The coalesced read-deadline push made before every read: a new absolute
   deadline, with one update interval of slack, is pushed only when the read
   timeout is positive, reads are not aborted, and strictly more than one update
   interval has passed since the last push.
   */
  function PushRead(f: Fields, now: ClockReading): (o: Outcome)
    ensures o.n == 0 && o.err == Nil
    ensures SameWriteSide(o.after, f)
    ensures o.after.readDeadline == f.readDeadline && o.after.abortReads == f.abortReads
    ensures o.calls != [] <==> f.readDeadline > 0 && !f.abortReads && now - f.readSetAt > UpdateInterval
    ensures o.calls != [] ==>
      o.calls == [InnerSetReadDeadline(now + f.readDeadline + UpdateInterval)] && o.after.readSetAt == now
    ensures o.calls == [] ==> o.after == f
  {
    if f.readDeadline <= 0 || f.abortReads then
      Outcome(f, [], 0, Nil)
    else if now - f.readSetAt > UpdateInterval then
      Outcome(f.(readSetAt := now), [InnerSetReadDeadline(now + (f.readDeadline + UpdateInterval))], 0, Nil)
    else
      Outcome(f, [], 0, Nil)
  }

  /** The write-side mirror of PushRead. */
  function PushWrite(f: Fields, now: ClockReading): (o: Outcome)
    ensures o.n == 0 && o.err == Nil
    ensures SameReadSide(o.after, f)
    ensures o.after.writeDeadline == f.writeDeadline && o.after.abortWrites == f.abortWrites
    ensures o.calls != [] <==> f.writeDeadline > 0 && !f.abortWrites && now - f.writeSetAt > UpdateInterval
    ensures o.calls != [] ==>
      o.calls == [InnerSetWriteDeadline(now + f.writeDeadline + UpdateInterval)] && o.after.writeSetAt == now
    ensures o.calls == [] ==> o.after == f
  {
    if f.writeDeadline <= 0 || f.abortWrites then
      Outcome(f, [], 0, Nil)
    else if now - f.writeSetAt > UpdateInterval then
      Outcome(f.(writeSetAt := now), [InnerSetWriteDeadline(now + (f.writeDeadline + UpdateInterval))], 0, Nil)
    else
      Outcome(f, [], 0, Nil)
  }

  /**
   Read into a buffer of `size` bytes. The inner Read, if it is made, answers
   (innerN, innerErr).
   */
  function ReadStep(f: Fields, now: ClockReading, size: nat, innerN: int, innerErr: Error): (o: Outcome)
    ensures SameWriteSide(o.after, f)
    ensures o.after.readDeadline == f.readDeadline && o.after.abortReads == f.abortReads
    // the inner Read is reached exactly when reads are not aborted
    ensures InnerRead(size) in o.calls <==> !f.abortReads
    // fast-path abort: no inner call, no change, a local failure
    ensures f.abortReads ==> o == Outcome(f, [], 0, DeadlineExceeded)
    // otherwise the deadline push, then the inner Read, whose answer is passed through
    ensures !f.abortReads ==>
      o.calls == PushRead(f, now).calls + [InnerRead(size)] && o.after == PushRead(f, now).after &&
      o.n == innerN && o.err == innerErr
  {
    if f.abortReads then
      Outcome(f, [], 0, DeadlineExceeded)
    else
      var p := PushRead(f, now);
      Outcome(p.after, p.calls + [InnerRead(size)], innerN, innerErr)
  }

  /**
   Write `data`. The inner Write, if it is made, answers (innerN, innerErr);
   a partial write (innerN > 0 with an error) is passed through as it is.
   */
  function WriteStep(f: Fields, now: ClockReading, data: seq<byte>, innerN: int, innerErr: Error): (o: Outcome)
    ensures SameReadSide(o.after, f)
    ensures o.after.writeDeadline == f.writeDeadline && o.after.abortWrites == f.abortWrites
    ensures InnerWrite(data) in o.calls <==> !f.abortWrites
    ensures f.abortWrites ==> o == Outcome(f, [], 0, DeadlineExceeded)
    ensures !f.abortWrites ==>
      o.calls == PushWrite(f, now).calls + [InnerWrite(data)] && o.after == PushWrite(f, now).after &&
      o.n == innerN && o.err == innerErr
  {
    if f.abortWrites then
      Outcome(f, [], 0, DeadlineExceeded)
    else
      var p := PushWrite(f, now);
      Outcome(p.after, p.calls + [InnerWrite(data)], innerN, innerErr)
  }

  /**
   Set the deadline of both directions. The inner connection answers
   readClearErr to a zero SetReadDeadline, writeClearErr to a zero
   SetWriteDeadline and setErr to SetDeadline(t); each answer is used only if
   that call is made.
   */
  function SetDeadlineStep(f: Fields, t: int, now: ClockReading,
                           readClearErr: Error, writeClearErr: Error, setErr: Error): (o: Outcome)
    ensures o.n == 0
    ensures o.after.readDeadline == f.readDeadline && o.after.writeDeadline == f.writeDeadline
    // zero time: clear the inner deadline of each direction without a timeout of its own, once each
    ensures IsZero(t) ==>
      (InnerSetReadDeadline(ZeroTime) in o.calls <==> f.readDeadline == 0) &&
      (InnerSetWriteDeadline(ZeroTime) in o.calls <==> f.writeDeadline == 0) &&
      |o.calls| == (if f.readDeadline == 0 then 1 else 0) + (if f.writeDeadline == 0 then 1 else 0) &&
      o.after.readSetAt == f.readSetAt && o.after.writeSetAt == f.writeSetAt
    // ... the read side is cleared before the write side
    ensures IsZero(t) ==>
      o.calls == (if f.readDeadline == 0 then [InnerSetReadDeadline(ZeroTime)] else []) +
                 (if f.writeDeadline == 0 then [InnerSetWriteDeadline(ZeroTime)] else [])
    // ... a failed write clear is reported and leaves the abort flags alone
    ensures IsZero(t) && f.writeDeadline == 0 && writeClearErr != Nil ==>
      o.after == f && o.err == writeClearErr
    // ... otherwise both directions resume, reporting the read clear's error if it was made
    ensures IsZero(t) && !(f.writeDeadline == 0 && writeClearErr != Nil) ==>
      o.after == f.(abortReads := false, abortWrites := false) &&
      o.err == (if f.readDeadline == 0 then readClearErr else Nil)
    // a non-zero time is always forwarded to the inner connection
    ensures !IsZero(t) ==> o.calls == [InnerSetDeadline(t)] && o.err == setErr
    // ... a time in the past aborts both directions and keeps the timestamps
    ensures !IsZero(t) && t < now ==> o.after == f.(abortReads := true, abortWrites := true)
    // ... any other time resumes both directions and counts as a push at `now`
    ensures !IsZero(t) && t >= now ==>
      o.after == f.(abortReads := false, abortWrites := false, readSetAt := now, writeSetAt := now)
  {
    if IsZero(t) then
      var readCalls := if f.readDeadline == 0 then [InnerSetReadDeadline(t)] else [];
      var err := if f.readDeadline == 0 then readClearErr else Nil;
      var writeCalls := if f.writeDeadline == 0 then [InnerSetWriteDeadline(t)] else [];
      if f.writeDeadline == 0 && writeClearErr != Nil then
        Outcome(f, readCalls + writeCalls, 0, writeClearErr)
      else
        Outcome(f.(abortReads := false, abortWrites := false), readCalls + writeCalls, 0, err)
    else if t < now then
      Outcome(f.(abortReads := true, abortWrites := true), [InnerSetDeadline(t)], 0, setErr)
    else
      Outcome(f.(abortReads := false, abortWrites := false, readSetAt := now, writeSetAt := now),
              [InnerSetDeadline(t)], 0, setErr)
  }

  /**
   Set the read deadline. The inner connection answers innerErr to
   SetReadDeadline(t), if that call is made.
   */
  function SetReadDeadlineStep(f: Fields, t: int, now: ClockReading, innerErr: Error): (o: Outcome)
    ensures o.n == 0
    ensures SameWriteSide(o.after, f) && o.after.readDeadline == f.readDeadline
    // zero time with a read timeout configured: resume the timeout, touch nothing else
    ensures IsZero(t) && f.readDeadline != 0 ==>
      o.calls == [] && o.err == Nil && o.after == f.(abortReads := false)
    // otherwise forward t, abort exactly when t is in the past, and count it as a push at `now`
    ensures !(IsZero(t) && f.readDeadline != 0) ==>
      o.calls == [InnerSetReadDeadline(t)] && o.err == innerErr &&
      o.after.readSetAt == now && (o.after.abortReads <==> t < now)
    // the zero time is in the past: clearing with no timeout configured aborts reads
    ensures IsZero(t) && f.readDeadline == 0 ==> o.after.abortReads
  {
    if IsZero(t) && f.readDeadline != 0 then
      Outcome(f.(abortReads := false), [], 0, Nil)
    else
      Outcome(f.(abortReads := t < now, readSetAt := now), [InnerSetReadDeadline(t)], 0, innerErr)
  }

  /** The write-side mirror of SetReadDeadlineStep. */
  function SetWriteDeadlineStep(f: Fields, t: int, now: ClockReading, innerErr: Error): (o: Outcome)
    ensures o.n == 0
    ensures SameReadSide(o.after, f) && o.after.writeDeadline == f.writeDeadline
    ensures IsZero(t) && f.writeDeadline != 0 ==>
      o.calls == [] && o.err == Nil && o.after == f.(abortWrites := false)
    ensures !(IsZero(t) && f.writeDeadline != 0) ==>
      o.calls == [InnerSetWriteDeadline(t)] && o.err == innerErr &&
      o.after.writeSetAt == now && (o.after.abortWrites <==> t < now)
    ensures IsZero(t) && f.writeDeadline == 0 ==> o.after.abortWrites
  {
    if IsZero(t) && f.writeDeadline != 0 then
      Outcome(f.(abortWrites := false), [], 0, Nil)
    else
      Outcome(f.(abortWrites := t < now, writeSetAt := now), [InnerSetWriteDeadline(t)], 0, innerErr)
  }

  /** Close: abort both directions, then close the inner connection once and report its answer. */
  function CloseStep(f: Fields, closeErr: Error): (o: Outcome)
    ensures o.after.abortReads && o.after.abortWrites
    ensures o.after.readDeadline == f.readDeadline && o.after.writeDeadline == f.writeDeadline
    ensures o.after.readSetAt == f.readSetAt && o.after.writeSetAt == f.writeSetAt
    ensures o.calls == [InnerClose] && o.n == 0 && o.err == closeErr
  {
    Outcome(f.(abortReads := true, abortWrites := true), [InnerClose], 0, closeErr)
  }

  /** WithReadDeadline: only the read timeout changes; the inner connection is not called. */
  function WithReadDeadlineStep(f: Fields, d: int): (o: Outcome)
    ensures o.after.readDeadline == d && o.after.writeDeadline == f.writeDeadline
    ensures o.after.readSetAt == f.readSetAt && o.after.writeSetAt == f.writeSetAt
    ensures o.after.abortReads == f.abortReads && o.after.abortWrites == f.abortWrites
    ensures o.calls == [] && o.n == 0 && o.err == Nil
  {
    Outcome(f.(readDeadline := d), [], 0, Nil)
  }

  /** WithWriteDeadline: only the write timeout changes; the inner connection is not called. */
  function WithWriteDeadlineStep(f: Fields, d: int): (o: Outcome)
    ensures o.after.writeDeadline == d && o.after.readDeadline == f.readDeadline
    ensures o.after.readSetAt == f.readSetAt && o.after.writeSetAt == f.writeSetAt
    ensures o.after.abortReads == f.abortReads && o.after.abortWrites == f.abortWrites
    ensures o.calls == [] && o.n == 0 && o.err == Nil
  {
    Outcome(f.(writeDeadline := d), [], 0, Nil)
  }

  /**
   The wrapper object. Lock and atomic operations are not modelled: the object
   is used by one caller at a time, and the abort flags are plain booleans.
   */
  class DeadlineConn {
    var readDeadline: int
    var readSetAt: int
    var writeDeadline: int
    var writeSetAt: int
    var abortReads: bool
    var abortWrites: bool

    /** Every call the wrapper has made on the inner connection, oldest first. */
    ghost var Calls: seq<InnerCall>

    function Snapshot(): (f: Fields)
      reads this
    {
      Fields(readDeadline, readSetAt, writeDeadline, writeSetAt, abortReads, abortWrites)
    }

    /** Wrap a connection: every field has its zero value. */
    constructor New()
      ensures Snapshot() == Initial && Calls == []
    {
      readDeadline, readSetAt := 0, ZeroTime;
      writeDeadline, writeSetAt := 0, ZeroTime;
      abortReads, abortWrites := false, false;
      Calls := [];
    }

    method PushReadDeadline(now: ClockReading)
      modifies this
      ensures Snapshot() == PushRead(old(Snapshot()), now).after
      ensures Calls == old(Calls) + PushRead(old(Snapshot()), now).calls
    {
      if readDeadline <= 0 || abortReads {
        return;
      }
      if now - readSetAt > UpdateInterval {
        Calls := Calls + [InnerSetReadDeadline(now + (readDeadline + UpdateInterval))];
        readSetAt := now;
      }
    }

    method PushWriteDeadline(now: ClockReading)
      modifies this
      ensures Snapshot() == PushWrite(old(Snapshot()), now).after
      ensures Calls == old(Calls) + PushWrite(old(Snapshot()), now).calls
    {
      if writeDeadline <= 0 || abortWrites {
        return;
      }
      if now - writeSetAt > UpdateInterval {
        Calls := Calls + [InnerSetWriteDeadline(now + (writeDeadline + UpdateInterval))];
        writeSetAt := now;
      }
    }

    method Read(size: nat, now: ClockReading, innerN: int, innerErr: Error) returns (n: int, err: Error)
      modifies this
      ensures Snapshot() == ReadStep(old(Snapshot()), now, size, innerN, innerErr).after
      ensures Calls == old(Calls) + ReadStep(old(Snapshot()), now, size, innerN, innerErr).calls
      ensures n == ReadStep(old(Snapshot()), now, size, innerN, innerErr).n
      ensures err == ReadStep(old(Snapshot()), now, size, innerN, innerErr).err
    {
      if abortReads {
        return 0, DeadlineExceeded;
      }
      PushReadDeadline(now);
      Calls := Calls + [InnerRead(size)];
      n, err := innerN, innerErr;
    }

    method Write(data: seq<byte>, now: ClockReading, innerN: int, innerErr: Error) returns (n: int, err: Error)
      modifies this
      ensures Snapshot() == WriteStep(old(Snapshot()), now, data, innerN, innerErr).after
      ensures Calls == old(Calls) + WriteStep(old(Snapshot()), now, data, innerN, innerErr).calls
      ensures n == WriteStep(old(Snapshot()), now, data, innerN, innerErr).n
      ensures err == WriteStep(old(Snapshot()), now, data, innerN, innerErr).err
    {
      if abortWrites {
        return 0, DeadlineExceeded;
      }
      PushWriteDeadline(now);
      Calls := Calls + [InnerWrite(data)];
      n, err := innerN, innerErr;
    }

    method SetDeadline(t: int, now: ClockReading, readClearErr: Error, writeClearErr: Error, setErr: Error)
      returns (err: Error)
      modifies this
      ensures Snapshot() == SetDeadlineStep(old(Snapshot()), t, now, readClearErr, writeClearErr, setErr).after
      ensures Calls == old(Calls) + SetDeadlineStep(old(Snapshot()), t, now, readClearErr, writeClearErr, setErr).calls
      ensures err == SetDeadlineStep(old(Snapshot()), t, now, readClearErr, writeClearErr, setErr).err
    {
      if IsZero(t) {
        err := Nil;
        if readDeadline == 0 {
          Calls := Calls + [InnerSetReadDeadline(t)];
          err := readClearErr;
        }
        if writeDeadline == 0 {
          Calls := Calls + [InnerSetWriteDeadline(t)];
          if writeClearErr != Nil {
            return writeClearErr;
          }
        }
        abortReads := false;
        abortWrites := false;
        return;
      }
      if t < now {
        abortReads := true;
        abortWrites := true;
        Calls := Calls + [InnerSetDeadline(t)];
        return setErr;
      }
      abortReads := false;
      abortWrites := false;
      readSetAt := now;
      writeSetAt := now;
      Calls := Calls + [InnerSetDeadline(t)];
      return setErr;
    }

    method SetReadDeadline(t: int, now: ClockReading, innerErr: Error) returns (err: Error)
      modifies this
      ensures Snapshot() == SetReadDeadlineStep(old(Snapshot()), t, now, innerErr).after
      ensures Calls == old(Calls) + SetReadDeadlineStep(old(Snapshot()), t, now, innerErr).calls
      ensures err == SetReadDeadlineStep(old(Snapshot()), t, now, innerErr).err
    {
      if IsZero(t) && readDeadline != 0 {
        abortReads := false;
        return Nil;
      }
      abortReads := t < now;
      readSetAt := now;
      Calls := Calls + [InnerSetReadDeadline(t)];
      return innerErr;
    }

    method SetWriteDeadline(t: int, now: ClockReading, innerErr: Error) returns (err: Error)
      modifies this
      ensures Snapshot() == SetWriteDeadlineStep(old(Snapshot()), t, now, innerErr).after
      ensures Calls == old(Calls) + SetWriteDeadlineStep(old(Snapshot()), t, now, innerErr).calls
      ensures err == SetWriteDeadlineStep(old(Snapshot()), t, now, innerErr).err
    {
      if IsZero(t) && writeDeadline != 0 {
        abortWrites := false;
        return Nil;
      }
      abortWrites := t < now;
      writeSetAt := now;
      Calls := Calls + [InnerSetWriteDeadline(t)];
      return innerErr;
    }

    method Close(closeErr: Error) returns (err: Error)
      modifies this
      ensures Snapshot() == CloseStep(old(Snapshot()), closeErr).after
      ensures Calls == old(Calls) + CloseStep(old(Snapshot()), closeErr).calls
      ensures err == CloseStep(old(Snapshot()), closeErr).err
    {
      abortReads := true;
      abortWrites := true;
      Calls := Calls + [InnerClose];
      return closeErr;
    }

    /** Configure the read timeout; returns the same object, for chaining. */
    method WithReadDeadline(d: int) returns (c: DeadlineConn)
      modifies this
      ensures c == this
      ensures Snapshot() == WithReadDeadlineStep(old(Snapshot()), d).after
      ensures Calls == old(Calls) + WithReadDeadlineStep(old(Snapshot()), d).calls
    {
      readDeadline := d;
      return this;
    }

    /** Configure the write timeout; returns the same object, for chaining. */
    method WithWriteDeadline(d: int) returns (c: DeadlineConn)
      modifies this
      ensures c == this
      ensures Snapshot() == WithWriteDeadlineStep(old(Snapshot()), d).after
      ensures Calls == old(Calls) + WithWriteDeadlineStep(old(Snapshot()), d).calls
    {
      writeDeadline := d;
      return this;
    }
  }
}
