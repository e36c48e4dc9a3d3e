/** What a call of `write`, `read` or `sync` has done by the time it returns, and that it does return:
    runs of the serial port seen from one of its threads. */
module UartCalls {
  import opened Prelude
  import opened UartProtocol

  /** Thread `t` starts no further call. */
  ghost predicate OneCall(steps: seq<Step>, t: Tid) {
    forall i :: 0 <= i < |steps| ==> !Starts(steps[i], t)
  }

  predicate Starts(s: Step, t: Tid) {
    (s.StartWrite? || s.StartRead? || s.StartSync?) && s.t == t
  }

  predicate Own(s: Step, t: Tid) {
    s.Run? && s.t == t
  }

  function StateAt(u: Uart, steps: seq<Step>, k: nat, z: Sizes): Uart
    requires z.Valid() && Possible(u, steps, z) && k <= |steps|
    decreases k
  {
    if k == 0 then u else StateAt(Next(u, steps[0], z), steps[1..], k - 1, z)
  }

  // ---------------------------------------------------------------- write

  predicate Writing(pc: Pc, buf: seq<Byte>) {
    || pc == WriteLock(buf)
    || ((pc.WriteRound? || pc.WriteSleep? || pc.WriteRecheck? || pc.WriteTest? || pc.WritePush? || pc.WriteKick?)
        && pc.buf == buf && pc.n <= |buf|)
  }

  /** A step that is not blocking finds the buffer full after `n` bytes. */
  ghost predicate GivesUp(u: Uart, s: Step, t: Tid, buf: seq<Byte>, n: nat, z: Sizes) {
    Own(s, t) && !s.blocking && u.PcOf(t) == WriteRound(buf, n) && |u.line.tx| >= z.tx
  }

  /** Steps of others leave a thread where it is. */
  lemma OtherStep(u: Uart, s: Step, t: Tid, z: Sizes)
    requires z.Valid() && Enabled(u, s, z) && !Own(s, t) && !Starts(s, t)
    ensures var r := Next(u, s, z);
      r.PcOf(t) == u.PcOf(t) && r.WrittenBy(t) == u.WrittenBy(t) && r.ReadBy(t) == u.ReadBy(t)
  {
    if s.Run? {
      RunLeavesOthers(u, s.t, s.blocking, s.count, s.incoming, t, z);
    }
  }

  lemma RunLeavesOthers(u: Uart, x: Tid, blocking: bool, count: nat, incoming: seq<Byte>, t: Tid, z: Sizes)
    requires z.Valid() && count <= |u.line.tx| && x != t
    ensures var r := RunThread(u, x, blocking, count, incoming, z);
      r.PcOf(t) == u.PcOf(t) && r.WrittenBy(t) == u.WrittenBy(t) && r.ReadBy(t) == u.ReadBy(t)
  {
    if InWrite(u.PcOf(x)) {
      WriteLeavesOthers(u, x, blocking, count, incoming, t, z);
    } else if InSync(u.PcOf(x)) {
      SyncLeavesOthers(u, x, blocking, count, incoming, t, z);
    } else {
      ReadLeavesOthers(u, x, blocking, count, incoming, t, z);
    }
  }

  predicate InSync(pc: Pc) {
    pc.SyncLock? || pc.SyncCheck? || pc.SyncSleep?
  }

  lemma SyncLeavesOthers(u: Uart, x: Tid, blocking: bool, count: nat, incoming: seq<Byte>, t: Tid, z: Sizes)
    requires z.Valid() && count <= |u.line.tx| && x != t && InSync(u.PcOf(x))
    ensures var r := RunThread(u, x, blocking, count, incoming, z);
      r.PcOf(t) == u.PcOf(t) && r.WrittenBy(t) == u.WrittenBy(t) && r.ReadBy(t) == u.ReadBy(t)
  {
  }

  predicate InWrite(pc: Pc) {
    || pc.WriteLock? || pc.WriteRound? || pc.WriteSleep? || pc.WriteRecheck?
    || pc.WriteTest? || pc.WritePush? || pc.WriteKick?
  }

  lemma WriteLeavesOthers(u: Uart, x: Tid, blocking: bool, count: nat, incoming: seq<Byte>, t: Tid, z: Sizes)
    requires z.Valid() && count <= |u.line.tx| && x != t && InWrite(u.PcOf(x))
    ensures var r := RunThread(u, x, blocking, count, incoming, z);
      r.PcOf(t) == u.PcOf(t) && r.WrittenBy(t) == u.WrittenBy(t) && r.ReadBy(t) == u.ReadBy(t)
  {
  }

  lemma ReadLeavesOthers(u: Uart, x: Tid, blocking: bool, count: nat, incoming: seq<Byte>, t: Tid, z: Sizes)
    requires z.Valid() && count <= |u.line.tx| && x != t && !InWrite(u.PcOf(x)) && !InSync(u.PcOf(x))
    ensures var r := RunThread(u, x, blocking, count, incoming, z);
      r.PcOf(t) == u.PcOf(t) && r.WrittenBy(t) == u.WrittenBy(t) && r.ReadBy(t) == u.ReadBy(t)
  {
  }

  lemma WriteStep(u: Uart, s: Step, t: Tid, buf: seq<Byte>, z: Sizes) returns (n: nat)
    requires z.Valid() && Enabled(u, s, z) && !Starts(s, t) && Writing(u.PcOf(t), buf)
    requires u.PcOf(t).WritePush? ==> u.PcOf(t).n < |buf|
    ensures n <= |buf|
    ensures var r := Next(u, s, z);
      || (Writing(r.PcOf(t), buf) && r.WrittenBy(t) == u.WrittenBy(t))
      || (r.PcOf(t).Idle? && r.WrittenBy(t) == u.WrittenBy(t) + buf[..n] &&
          (n < |buf| ==> GivesUp(u, s, t, buf, n, z)))
  {
    n := if u.PcOf(t).WriteLock? then 0 else u.PcOf(t).n;
    assert u.WrittenBy(t) + [] == u.WrittenBy(t);
    if Own(s, t) {
      OwnWriteStep(u, s, t, buf, z);
    } else {
      OtherStep(u, s, t, z);
    }
  }

  lemma OwnWriteStep(u: Uart, s: Step, t: Tid, buf: seq<Byte>, z: Sizes)
    requires z.Valid() && Enabled(u, s, z) && Own(s, t) && Writing(u.PcOf(t), buf)
    requires u.PcOf(t).WritePush? ==> u.PcOf(t).n < |buf|
    ensures var pc, r := u.PcOf(t), Next(u, s, z);
      || (Writing(r.PcOf(t), buf) && r.WrittenBy(t) == u.WrittenBy(t))
      || (r.PcOf(t).Idle? && pc.WriteLock? && buf == [] && r.WrittenBy(t) == u.WrittenBy(t))
      || (r.PcOf(t).Idle? && pc.WriteRound? && r.WrittenBy(t) == u.WrittenBy(t) + buf[..pc.n] &&
          (pc.n < |buf| ==> GivesUp(u, s, t, buf, pc.n, z)))
  {
  }

  lemma IdleStep(u: Uart, s: Step, t: Tid, z: Sizes)
    requires z.Valid() && Enabled(u, s, z) && !Starts(s, t) && u.PcOf(t).Idle?
    ensures var r := Next(u, s, z);
      r.PcOf(t).Idle? && r.WrittenBy(t) == u.WrittenBy(t) && r.ReadBy(t) == u.ReadBy(t)
  {
    OtherStep(u, s, t, z);
  }

  lemma {:induction false} StaysIdle(u: Uart, steps: seq<Step>, t: Tid, z: Sizes)
    requires z.Valid() && Possible(u, steps, z) && OneCall(steps, t) && u.PcOf(t).Idle?
    ensures var r := After(u, steps, z);
      r.PcOf(t).Idle? && r.WrittenBy(t) == u.WrittenBy(t) && r.ReadBy(t) == u.ReadBy(t)
    decreases |steps|
  {
    if steps != [] {
      IdleStep(u, steps[0], t, z);
      StaysIdle(Next(u, steps[0], z), steps[1..], t, z);
    }
  }

  /** At some point of the run the call gave up after `n` bytes, on a full buffer. */
  ghost predicate GaveUp(u: Uart, steps: seq<Step>, t: Tid, buf: seq<Byte>, n: nat, z: Sizes)
    requires z.Valid() && Possible(u, steps, z)
  {
    exists k :: 0 <= k < |steps| && GivesUp(StateAt(u, steps, k, z), steps[k], t, buf, n, z)
  }

  /** A returned `write` has accepted `n` bytes of its buffer: all of them, unless it gave up. */
  ghost predicate WriteDone(u: Uart, steps: seq<Step>, t: Tid, buf: seq<Byte>, n: nat, z: Sizes)
    requires z.Valid() && Possible(u, steps, z)
  {
    && n <= |buf|
    && After(u, steps, z).WrittenBy(t) == u.WrittenBy(t) + buf[..n]
    && (n < |buf| ==> GaveUp(u, steps, t, buf, n, z))
  }

  /** From its start to its return and beyond, whatever other threads and interrupts do: a `write` is either
      still at it, with nothing reported yet, or has reported a prefix of its buffer, which is all of it
      unless some step found the buffer full when not blocking. */
  lemma {:induction false} WriteReturns(u: Uart, steps: seq<Step>, t: Tid, buf: seq<Byte>, z: Sizes)
    requires z.Valid() && Inv(u, z) && Possible(u, steps, z) && OneCall(steps, t) && Writing(u.PcOf(t), buf)
    ensures var r := After(u, steps, z);
      || (Writing(r.PcOf(t), buf) && r.WrittenBy(t) == u.WrittenBy(t))
      || (r.PcOf(t).Idle? && exists n :: WriteDone(u, steps, t, buf, n, z))
    decreases |steps|
  {
    if steps != [] {
      var s, u' := steps[0], Next(u, steps[0], z);
      assert ThreadAccounted(u, t, z);
      var n := WriteStep(u, s, t, buf, z);
      NextKeepsInv(u, s, z);
      if Writing(u'.PcOf(t), buf) {
        WriteReturns(u', steps[1..], t, buf, z);
        if After(u, steps, z).PcOf(t).Idle? {
          var m :| WriteDone(u', steps[1..], t, buf, m, z);
          LaterGaveUp(u, steps, t, buf, m, z);
          assert WriteDone(u, steps, t, buf, m, z);
        }
      } else {
        StaysIdle(u', steps[1..], t, z);
        assert n < |buf| ==> GivesUp(StateAt(u, steps, 0, z), steps[0], t, buf, n, z);
        assert WriteDone(u, steps, t, buf, n, z);
      }
    }
  }

  lemma LaterGaveUp(u: Uart, steps: seq<Step>, t: Tid, buf: seq<Byte>, n: nat, z: Sizes)
    requires z.Valid() && Possible(u, steps, z) && steps != []
    ensures GaveUp(Next(u, steps[0], z), steps[1..], t, buf, n, z) ==> GaveUp(u, steps, t, buf, n, z)
  {
    var u' := Next(u, steps[0], z);
    if GaveUp(u', steps[1..], t, buf, n, z) {
      var k :| 0 <= k < |steps[1..]| && GivesUp(StateAt(u', steps[1..], k, z), steps[1..][k], t, buf, n, z);
      assert StateAt(u, steps, k + 1, z) == StateAt(u', steps[1..], k, z) && steps[k + 1] == steps[1..][k];
    }
  }

  /** All steps of the thread find the file blocking, or not blocking. */
  ghost predicate Always(steps: seq<Step>, t: Tid, blocking: bool) {
    forall i :: 0 <= i < |steps| && Own(steps[i], t) ==> steps[i].blocking == blocking
  }

  /** A blocking `write` returns only with its whole buffer accepted. */
  lemma BlockingWritesAll(u: Uart, steps: seq<Step>, t: Tid, buf: seq<Byte>, z: Sizes)
    requires z.Valid() && Inv(u, z) && Possible(u, steps, z) && OneCall(steps, t) && u.PcOf(t) == WriteLock(buf)
    requires Always(steps, t, true) && After(u, steps, z).PcOf(t).Idle?
    ensures After(u, steps, z).WrittenBy(t) == u.WrittenBy(t) + buf
  {
    WriteReturns(u, steps, t, buf, z);
    var n :| WriteDone(u, steps, t, buf, n, z);
    assert buf[..|buf|] == buf;
  }

  // ---------------------------------------------------------------- read

  predicate Reading(u: Uart, t: Tid, length: nat) {
    var pc := u.PcOf(t);
    || pc == ReadLock(length)
    || ((pc == ReadCheck(length) || pc == ReadSleep(length)) && length > 0)
    || ((pc.ReadTest? || pc.ReadPop? || pc.ReadKick?) && pc.length == length && |pc.got| <= length && length > 0 &&
        (pc.got == [] ==> !pc.ReadKick? && u.line.rx != []) && (pc.ReadPop? ==> |pc.got| < length))
    || (pc.ReadReturn? && 0 < |pc.got| <= length)
  }

  ghost predicate FindsNothing(u: Uart, s: Step, t: Tid, length: nat) {
    Own(s, t) && !s.blocking && u.PcOf(t) == ReadCheck(length) && u.line.rx == []
  }

  lemma ReadStep(u: Uart, s: Step, t: Tid, length: nat, z: Sizes) returns (got: seq<Byte>)
    requires z.Valid() && Inv(u, z) && Enabled(u, s, z) && !Starts(s, t) && Reading(u, t, length)
    ensures |got| <= length
    ensures var r := Next(u, s, z);
      || (Reading(r, t, length) && r.ReadBy(t) == u.ReadBy(t))
      || (r.PcOf(t).Idle? && r.ReadBy(t) == u.ReadBy(t) + got &&
          (got == [] && length > 0 ==> FindsNothing(u, s, t, length)))
  {
    got := if u.PcOf(t).ReadReturn? then u.PcOf(t).got else [];
    assert u.ReadBy(t) + [] == u.ReadBy(t);
    if Own(s, t) {
      OwnReadStep(u, s, t, length, z);
    } else {
      OtherReadStep(u, s, t, length, z);
    }
  }

  lemma OwnReadStep(u: Uart, s: Step, t: Tid, length: nat, z: Sizes)
    requires z.Valid() && Enabled(u, s, z) && Own(s, t) && Reading(u, t, length)
    ensures var r := Next(u, s, z);
      || (Reading(r, t, length) && r.ReadBy(t) == u.ReadBy(t))
      || (r.PcOf(t).Idle? && u.PcOf(t).ReadReturn? && r.ReadBy(t) == u.ReadBy(t) + u.PcOf(t).got)
      || (r.PcOf(t).Idle? && r.ReadBy(t) == u.ReadBy(t) && (length > 0 ==> FindsNothing(u, s, t, length)))
  {
  }

  /** While one thread is inside the mutex only interrupts happen: they free the transmit buffer and fill
      the receive buffer. */
  lemma OwnerAlone(u: Uart, s: Step, t: Tid, z: Sizes)
    requires z.Valid() && MutexHeld(u) && Enabled(u, s, z) && !Own(s, t) && u.PcOf(t).HoldsMutex()
    ensures var r := Next(u, s, z);
      |r.line.tx| <= |u.line.tx| && (u.line.rx != [] ==> r.line.rx != [])
  {
    assert u.mutex == Some(t);
    assert forall x: Tid :: x != t ==> !u.PcOf(x).HoldsMutex();
  }

  lemma OtherReadStep(u: Uart, s: Step, t: Tid, length: nat, z: Sizes)
    requires z.Valid() && MutexHeld(u) && Enabled(u, s, z) && !Own(s, t) && !Starts(s, t) && Reading(u, t, length)
    ensures Reading(Next(u, s, z), t, length) && Next(u, s, z).ReadBy(t) == u.ReadBy(t)
  {
    OtherStep(u, s, t, z);
    if u.PcOf(t).HoldsMutex() {
      OwnerAlone(u, s, t, z);
    }
  }

  ghost predicate FoundNothing(u: Uart, steps: seq<Step>, t: Tid, length: nat, z: Sizes)
    requires z.Valid() && Possible(u, steps, z)
  {
    exists k :: 0 <= k < |steps| && FindsNothing(StateAt(u, steps, k, z), steps[k], t, length)
  }

  ghost predicate ReadDone(u: Uart, steps: seq<Step>, t: Tid, length: nat, got: seq<Byte>, z: Sizes)
    requires z.Valid() && Possible(u, steps, z)
  {
    && |got| <= length
    && After(u, steps, z).ReadBy(t) == u.ReadBy(t) + got
    && (got == [] && length > 0 ==> FoundNothing(u, steps, t, length, z))
  }

  /** The same for `read`: it returns at most `length` bytes, and none only if nothing was asked for or
      some step found the buffer empty when not blocking. */
  lemma {:induction false} ReadReturns(u: Uart, steps: seq<Step>, t: Tid, length: nat, z: Sizes)
    requires z.Valid() && Inv(u, z) && Possible(u, steps, z) && OneCall(steps, t) && Reading(u, t, length)
    ensures var r := After(u, steps, z);
      || (Reading(r, t, length) && r.ReadBy(t) == u.ReadBy(t))
      || (r.PcOf(t).Idle? && exists got :: ReadDone(u, steps, t, length, got, z))
    decreases |steps|
  {
    if steps != [] {
      var s, u' := steps[0], Next(u, steps[0], z);
      var got := ReadStep(u, s, t, length, z);
      NextKeepsInv(u, s, z);
      if Reading(u', t, length) {
        ReadReturns(u', steps[1..], t, length, z);
        if After(u, steps, z).PcOf(t).Idle? {
          var more :| ReadDone(u', steps[1..], t, length, more, z);
          LaterFoundNothing(u, steps, t, length, z);
          assert ReadDone(u, steps, t, length, more, z);
        }
      } else {
        StaysIdle(u', steps[1..], t, z);
        assert got == [] && length > 0 ==> FindsNothing(StateAt(u, steps, 0, z), steps[0], t, length);
        assert ReadDone(u, steps, t, length, got, z);
      }
    }
  }

  lemma LaterFoundNothing(u: Uart, steps: seq<Step>, t: Tid, length: nat, z: Sizes)
    requires z.Valid() && Possible(u, steps, z) && steps != []
    ensures FoundNothing(Next(u, steps[0], z), steps[1..], t, length, z) ==> FoundNothing(u, steps, t, length, z)
  {
    var u' := Next(u, steps[0], z);
    if FoundNothing(u', steps[1..], t, length, z) {
      var k :| 0 <= k < |steps[1..]| && FindsNothing(StateAt(u', steps[1..], k, z), steps[1..][k], t, length);
      assert StateAt(u, steps, k + 1, z) == StateAt(u', steps[1..], k, z) && steps[k + 1] == steps[1..][k];
    }
  }

  /** A blocking `read` returns only with at least one byte. */
  lemma BlockingReadsSome(u: Uart, steps: seq<Step>, t: Tid, length: nat, z: Sizes)
    requires z.Valid() && Inv(u, z) && Possible(u, steps, z) && OneCall(steps, t)
    requires u.PcOf(t) == ReadLock(length) && length > 0
    requires Always(steps, t, true) && After(u, steps, z).PcOf(t).Idle?
    ensures |u.ReadBy(t)| < |After(u, steps, z).ReadBy(t)| <= |u.ReadBy(t)| + length
  {
    ReadReturns(u, steps, t, length, z);
    var got :| ReadDone(u, steps, t, length, got, z);
  }

  // ---------------------------------------------------------------- sleeping

  predicate Asleep(pc: Pc) {
    pc.WriteSleep? || pc.WriteRecheck? || pc.ReadSleep?
  }

  /** A thread that never finds the file blocking never sleeps in `write` or `read`, in any number of
      calls. */
  lemma {:induction false} NonBlockingNeverSleeps(u: Uart, steps: seq<Step>, t: Tid, z: Sizes)
    requires z.Valid() && Possible(u, steps, z) && Always(steps, t, false) && !Asleep(u.PcOf(t))
    ensures !Asleep(After(u, steps, z).PcOf(t))
    decreases |steps|
  {
    if steps != [] {
      assert Own(steps[0], t) ==> !steps[0].blocking;
      WakefulStep(u, steps[0], t, z);
      NonBlockingNeverSleeps(Next(u, steps[0], z), steps[1..], t, z);
    }
  }

  lemma WakefulStep(u: Uart, s: Step, t: Tid, z: Sizes)
    requires z.Valid() && Enabled(u, s, z) && (Own(s, t) ==> !s.blocking) && !Asleep(u.PcOf(t))
    ensures !Asleep(Next(u, s, z).PcOf(t))
  {
    if Own(s, t) {
      OwnWakefulStep(u, t, s.count, s.incoming, z);
    } else if !Starts(s, t) {
      OtherStep(u, s, t, z);
    }
  }

  lemma OwnWakefulStep(u: Uart, t: Tid, count: nat, incoming: seq<Byte>, z: Sizes)
    requires z.Valid() && count <= |u.line.tx| && !Asleep(u.PcOf(t))
    ensures !Asleep(RunThread(u, t, false, count, incoming, z).PcOf(t))
  {
  }

  // ---------------------------------------------------------------- calls return

  function Left(whole: nat, done: nat): nat {
    if done <= whole then whole - done else 0
  }

  /** How many steps of its own a thread is away from returning, if it finds what it waits for. */
  function Effort(u: Uart, t: Tid, z: Sizes): nat {
    match u.PcOf(t)
    case Idle => 0
    case WriteLock(buf) => 7 * |buf| + 5
    case WriteTest(buf, n) => 7 * Left(|buf|, n) + if n < |buf| && |u.line.tx| < z.tx then 1 else 6
    case WriteKick(buf, n) => 7 * Left(|buf|, n) + 5
    case WriteRound(buf, n) => 7 * Left(|buf|, n) + 4
    case WriteSleep(buf, n) => 7 * Left(|buf|, n) + 3
    case WriteRecheck(buf, n) => 7 * Left(|buf|, n) + 2
    case WritePush(buf, n) => 7 * Left(|buf|, n)
    case ReadLock(length) => 2 * length + 5
    case ReadSleep(length) => 2 * length + 5
    case ReadCheck(length) => 2 * length + 4
    case ReadTest(length, got) => 2 * Left(length, |got|) + 3
    case ReadPop(length, got) => 2 * Left(length, |got|) + 2
    case ReadKick(length, got) => 2
    case ReadReturn(got) => 1
    case SyncLock => 2
    case SyncSleep => 2
    case SyncCheck => 1
  }

  /** The thread has woken up in vain: what it waits for is not there. */
  predicate InVain(u: Uart, t: Tid, z: Sizes) {
    var pc := u.PcOf(t);
    || (pc.WriteRecheck? && |u.line.tx| >= z.tx)
    || (pc.ReadCheck? && u.line.rx == [])
    || (pc.SyncCheck? && u.line.tx != [])
  }

  /** Every step of its own brings a thread nearer to its return, unless it has woken up in vain. */
  lemma OwnStepAdvances(u: Uart, s: Step, t: Tid, z: Sizes)
    requires z.Valid() && Inv(u, z) && Enabled(u, s, z) && Own(s, t)
    ensures Effort(Next(u, s, z), t, z) + 1 <= Effort(u, t, z) + if InVain(u, t, z) then 2 else 0
  {
    assert ThreadAccounted(u, t, z);
    if InWrite(u.PcOf(t)) {
      OwnWriteAdvances(u, t, s.blocking, s.count, s.incoming, z);
    } else if InSync(u.PcOf(t)) {
      OwnSyncAdvances(u, t, s.blocking, s.count, s.incoming, z);
    } else {
      OwnReadAdvances(u, t, s.blocking, s.count, s.incoming, z);
    }
  }

  lemma OwnSyncAdvances(u: Uart, t: Tid, blocking: bool, count: nat, incoming: seq<Byte>, z: Sizes)
    requires z.Valid() && count <= |u.line.tx| && InSync(u.PcOf(t))
    ensures Effort(RunThread(u, t, blocking, count, incoming, z), t, z) + 1 <=
            Effort(u, t, z) + if InVain(u, t, z) then 2 else 0
  {
  }

  lemma OwnWriteAdvances(u: Uart, t: Tid, blocking: bool, count: nat, incoming: seq<Byte>, z: Sizes)
    requires z.Valid() && ThreadAccounted(u, t, z) && count <= |u.line.tx| && InWrite(u.PcOf(t))
    ensures Effort(RunThread(u, t, blocking, count, incoming, z), t, z) + 1 <=
            Effort(u, t, z) + if InVain(u, t, z) then 2 else 0
  {
  }

  lemma OwnReadAdvances(u: Uart, t: Tid, blocking: bool, count: nat, incoming: seq<Byte>, z: Sizes)
    requires z.Valid() && ThreadAccounted(u, t, z) && count <= |u.line.tx|
    requires !InWrite(u.PcOf(t)) && !InSync(u.PcOf(t)) && !u.PcOf(t).Idle?
    ensures Effort(RunThread(u, t, blocking, count, incoming, z), t, z) + 1 <=
            Effort(u, t, z) + if InVain(u, t, z) then 2 else 0
  {
  }

  /** No step of another thread or an interrupt takes it farther away. */
  lemma OtherStepDoesNotDelay(u: Uart, s: Step, t: Tid, z: Sizes)
    requires z.Valid() && Inv(u, z) && Enabled(u, s, z) && !Own(s, t) && !Starts(s, t)
    ensures Effort(Next(u, s, z), t, z) <= Effort(u, t, z)
  {
    OtherStep(u, s, t, z);
    if u.PcOf(t).WriteTest? {
      OwnerAlone(u, s, t, z);
    }
  }

  function OwnSteps(steps: seq<Step>, t: Tid): nat {
    if steps == [] then 0 else (if Own(steps[0], t) then 1 else 0) + OwnSteps(steps[1..], t)
  }

  /** How often the thread wakes up in vain. */
  function VainWakes(u: Uart, steps: seq<Step>, t: Tid, z: Sizes): nat
    requires z.Valid() && Possible(u, steps, z)
    decreases |steps|
  {
    if steps == [] then 0
    else
      (if Own(steps[0], t) && InVain(u, t, z) then 1 else 0) + VainWakes(Next(u, steps[0], z), steps[1..], t, z)
  }

  /** Every call returns: along any run a thread takes at most as many steps as its call needs, and two
      for each time that it wakes up in vain. */
  lemma {:induction false} CallsReturn(u: Uart, steps: seq<Step>, t: Tid, z: Sizes)
    requires z.Valid() && Inv(u, z) && Possible(u, steps, z) && OneCall(steps, t)
    ensures OwnSteps(steps, t) + Effort(After(u, steps, z), t, z) <= Effort(u, t, z) + 2 * VainWakes(u, steps, t, z)
    decreases |steps|
  {
    if steps != [] {
      var s, u' := steps[0], Next(u, steps[0], z);
      NextKeepsInv(u, s, z);
      if Own(s, t) {
        OwnStepAdvances(u, s, t, z);
      } else {
        OtherStepDoesNotDelay(u, s, t, z);
      }
      CallsReturn(u', steps[1..], t, z);
    }
  }
}
