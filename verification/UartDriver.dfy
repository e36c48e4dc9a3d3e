/** The `UARTSerial` code itself: the two interrupt handlers, `write` and `read`, as methods over two
    ring buffers and a peripheral whose readiness can be anything. Interrupts may come between
    any two atomic actions of a call. */
module UartDriver {
  import opened Prelude
  import opened RingBuffer
  import P = UartProtocol

  type Byte = P.Byte

  const EAGAIN: int := 11

  /** The serial HAL. `writableAt(n)` and `readableAt(n)` answer the n-th question asked of it;
      `byteAt(n)` is the n-th byte on the wire. The ghost functions say that it does not refuse for
      ever. */
  class Peripheral {
    const writableAt: nat -> bool
    const readableAt: nat -> bool
    const byteAt: nat -> Byte
    const interruptsAt: nat -> nat
    ghost const nextWritable: nat -> nat
    ghost const nextReadable: nat -> nat
    var writeQueries: nat
    var readQueries: nat
    var preemptions: nat
    var sent: seq<Byte>
    var received: seq<Byte>

    ghost predicate Valid() {
      && (forall i: nat :: i <= nextWritable(i) && writableAt(nextWritable(i)))
      && (forall i: nat :: !writableAt(i) ==> nextWritable(i + 1) == nextWritable(i))
      && (forall i: nat :: i <= nextReadable(i) && readableAt(nextReadable(i)))
      && (forall i: nat :: !readableAt(i) ==> nextReadable(i + 1) == nextReadable(i))
    }

    constructor (writableAt: nat -> bool, readableAt: nat -> bool, byteAt: nat -> Byte, interruptsAt: nat -> nat,
                 ghost nextWritable: nat -> nat, ghost nextReadable: nat -> nat)
      ensures this.writableAt == writableAt && this.readableAt == readableAt
      ensures this.nextWritable == nextWritable && this.nextReadable == nextReadable
      ensures sent == [] && received == []
    {
      this.writableAt, this.readableAt, this.byteAt := writableAt, readableAt, byteAt;
      this.interruptsAt, this.nextWritable, this.nextReadable := interruptsAt, nextWritable, nextReadable;
      writeQueries, readQueries, preemptions, sent, received := 0, 0, 0, [], [];
    }

    /** How many more refusals a writer or reader can meet. */
    ghost function WriteWait(): int
      reads this`writeQueries
    {
      nextWritable(writeQueries) - writeQueries
    }

    ghost function ReadWait(): int
      reads this`readQueries
    {
      nextReadable(readQueries) - readQueries
    }

    method Writeable() returns (yes: bool)
      requires Valid()
      modifies this`writeQueries
      ensures !yes ==> 0 <= WriteWait() < old(WriteWait())
    {
      yes := writableAt(writeQueries);
      writeQueries := writeQueries + 1;
    }

    method Readable() returns (yes: bool)
      requires Valid()
      modifies this`readQueries
      ensures !yes ==> 0 <= ReadWait() < old(ReadWait())
    {
      yes := readableAt(readQueries);
      readQueries := readQueries + 1;
    }

    method Putc(data: Byte)
      modifies this`sent
      ensures sent == old(sent) + [data]
    {
      sent := sent + [data];
    }

    method Getc() returns (data: Byte)
      modifies this`received
      ensures received == old(received) + [data]
    {
      data := byteAt(|received|);
      received := received + [data];
    }
  }

  /** The state of the line, and how many more refusals a writer or reader can meet. */
  datatype Snapshot = Snapshot(line: P.Line, writeWait: int, readWait: int) {
    /** Everything written so far, on the wire or still buffered. */
    function Stream(): seq<Byte> {
      line.sent + line.tx
    }

    /** An enabled interrupt has work to do. */
    predicate FlagsSafe(rxSize: nat) {
      && (line.txIrqEnabled ==> line.tx != [])
      && (line.rxIrqEnabled ==> |line.rx| < rxSize)
    }

    /** Outside the windows, work to do also means an enabled interrupt. */
    predicate TxQuiet() {
      line.txIrqEnabled <==> line.tx != []
    }

    predicate RxQuiet(rxSize: nat) {
      line.rxIrqEnabled <==> |line.rx| < rxSize
    }

    predicate Quiet(rxSize: nat) {
      TxQuiet() && RxQuiet(rxSize)
    }
  }

  /** What interrupts may do to a thread between two of its actions: send from the front of the
      transmit buffer, and append to the receive buffer. */
  ghost predicate OnlyInterrupts(a: Snapshot, b: Snapshot, incoming: seq<Byte>, rxSize: nat) {
    && b.Stream() == a.Stream()
    && |b.line.tx| <= |a.line.tx|
    && b.line.rx == a.line.rx + incoming
    && b.line.received == a.line.received + incoming
    && b.FlagsSafe(rxSize)
    && (a.TxQuiet() ==> b.TxQuiet())
    && (a.RxQuiet(rxSize) ==> b.RxQuiet(rxSize))
    && (b.line.tx != [] && |b.line.tx| == |a.line.tx| ==> b.writeWait <= a.writeWait)
    && (incoming == [] && |b.line.rx| < rxSize ==> b.readWait <= a.readWait)
  }

  lemma InterruptsCompose(a: Snapshot, b: Snapshot, c: Snapshot, first: seq<Byte>, second: seq<Byte>, rxSize: nat)
    requires OnlyInterrupts(a, b, first, rxSize) && OnlyInterrupts(b, c, second, rxSize)
    ensures OnlyInterrupts(a, c, first + second, rxSize)
  {
    assert (a.line.rx + first) + second == a.line.rx + (first + second);
    assert (a.line.received + first) + second == a.line.received + (first + second);
  }

  lemma TxIrqIsInterrupt(a: Snapshot, b: Snapshot, count: nat, rxSize: nat)
    requires a.FlagsSafe(rxSize) && a.line.txIrqEnabled && count <= |a.line.tx|
    requires b.line == P.TxIrq(a.line, count) && b.readWait == a.readWait
    requires count == 0 ==> b.writeWait <= a.writeWait
    ensures OnlyInterrupts(a, b, [], rxSize)
  {
    P.TxIrqConserves(a.line, count);
    assert a.line.rx + [] == a.line.rx && a.line.received + [] == a.line.received;
  }

  lemma RxIrqIsInterrupt(a: Snapshot, b: Snapshot, incoming: seq<Byte>, rxSize: nat)
    requires a.FlagsSafe(rxSize) && a.line.rxIrqEnabled && |a.line.rx| + |incoming| <= rxSize
    requires b.line == P.RxIrq(a.line, incoming, rxSize) && b.writeWait == a.writeWait
    requires incoming == [] ==> b.readWait <= a.readWait
    ensures OnlyInterrupts(a, b, incoming, rxSize)
  {
  }

  class UartSerial {
    const hw: Peripheral
    const txbuf: CircularBuffer<Byte>
    const rxbuf: CircularBuffer<Byte>
    var txIrqEnabled: bool
    var rxIrqEnabled: bool
    /** How often a call has slept. */
    ghost var sleeps: nat

    constructor (hw: Peripheral, txSize: nat, rxSize: nat, counterRange: nat)
      requires hw.Valid() && 0 < txSize < counterRange && 0 < rxSize < counterRange
      ensures Valid() && Snap().Quiet(rxSize)
      ensures rxbuf.size == rxSize && txbuf.size == txSize && this.hw == hw && fresh(Repr() - {hw})
      ensures View() == P.Line([], [], false, true, hw.sent, hw.received)
    {
      this.hw := hw;
      txbuf := new CircularBuffer(txSize, counterRange);
      rxbuf := new CircularBuffer(rxSize, counterRange);
      txIrqEnabled, rxIrqEnabled := false, true;
    }

    ghost function Repr(): set<object> {
      {this, hw, txbuf, txbuf.pool, rxbuf, rxbuf.pool}
    }

    ghost predicate Valid()
      reads Repr()
    {
      && hw.Valid() && txbuf.Valid() && rxbuf.Valid()
      && txbuf != rxbuf && txbuf.pool != rxbuf.pool
    }

    ghost function View(): P.Line
      requires Valid()
      reads Repr()
    {
      P.Line(txbuf.Contents(), rxbuf.Contents(), txIrqEnabled, rxIrqEnabled, hw.sent, hw.received)
    }

    ghost function Snap(): Snapshot
      requires Valid()
      reads Repr()
    {
      Snapshot(View(), hw.WriteWait(), hw.ReadWait())
    }

    /** `tx_irq`. */
    method TxIrq() returns (ghost count: nat)
      requires Valid()
      modifies this`txIrqEnabled, hw`writeQueries, hw`sent, txbuf
      ensures Valid() && count <= |old(txbuf.Contents())|
      ensures View() == P.TxIrq(old(View()), count)
      ensures count == 0 && txbuf.Contents() != [] ==> 0 <= hw.WriteWait() < old(hw.WriteWait())
    {
      count := Send();
      if txIrqEnabled && txbuf.Empty() {
        txIrqEnabled := false;
      }
    }

    /** The loop of `tx_irq`: write while there is something to write and the peripheral takes it. */
    method Send() returns (ghost count: nat)
      requires Valid()
      modifies hw`writeQueries, hw`sent, txbuf
      ensures Valid() && count <= |old(txbuf.Contents())|
      ensures txbuf.Contents() == old(txbuf.Contents())[count..]
      ensures hw.sent == old(hw.sent) + old(txbuf.Contents())[..count]
      ensures count == 0 && txbuf.Contents() != [] ==> 0 <= hw.WriteWait() < old(hw.WriteWait())
    {
      count := 0;
      var more := MayPut();
      while more
        invariant Valid() && count <= |old(txbuf.Contents())|
        invariant txbuf.Contents() == old(txbuf.Contents())[count..]
        invariant hw.sent == old(hw.sent) + old(txbuf.Contents())[..count]
        invariant more ==> txbuf.Contents() != []
        invariant !more && count == 0 && txbuf.Contents() != [] ==> 0 <= hw.WriteWait() < old(hw.WriteWait())
        decreases |txbuf.Contents()|
      {
        PutOne();
        count := count + 1;
        more := MayPut();
      }
    }

    method MayPut() returns (more: bool)
      requires Valid()
      modifies hw`writeQueries
      ensures more ==> txbuf.Contents() != []
      ensures !more && txbuf.Contents() != [] ==> 0 <= hw.WriteWait() < old(hw.WriteWait())
    {
      more := !txbuf.Empty();
      if more {
        more := hw.Writeable();
      }
    }

    method PutOne()
      requires Valid() && txbuf.Contents() != []
      modifies hw`sent, txbuf
      ensures Valid() && txbuf.Contents() == old(txbuf.Contents())[1..]
      ensures hw.sent == old(hw.sent) + [old(txbuf.Contents())[0]]
    {
      var popped, data := txbuf.Pop();
      hw.Putc(data);
    }

    /** `rx_irq`. */
    method RxIrq() returns (ghost incoming: seq<Byte>)
      requires Valid()
      modifies this`rxIrqEnabled, hw`readQueries, hw`received, rxbuf, rxbuf.pool
      ensures Valid() && |old(rxbuf.Contents())| + |incoming| <= rxbuf.size
      ensures View() == P.RxIrq(old(View()), incoming, rxbuf.size)
      ensures incoming == [] && |rxbuf.Contents()| < rxbuf.size ==> 0 <= hw.ReadWait() < old(hw.ReadWait())
    {
      incoming := Receive();
      if rxIrqEnabled && rxbuf.Full() {
        rxIrqEnabled := false;
      }
    }

    /** The loop of `rx_irq`: read while the buffer has room and the peripheral has data. */
    method Receive() returns (ghost incoming: seq<Byte>)
      requires Valid()
      modifies hw`readQueries, hw`received, rxbuf, rxbuf.pool
      ensures Valid() && rxbuf.Contents() == old(rxbuf.Contents()) + incoming
      ensures hw.received == old(hw.received) + incoming
      ensures incoming == [] && |rxbuf.Contents()| < rxbuf.size ==> 0 <= hw.ReadWait() < old(hw.ReadWait())
    {
      incoming := [];
      var more := MayGet();
      while more
        invariant Valid() && rxbuf.Contents() == old(rxbuf.Contents()) + incoming
        invariant hw.received == old(hw.received) + incoming
        invariant more ==> |rxbuf.Contents()| < rxbuf.size
        invariant !more && incoming == [] && |rxbuf.Contents()| < rxbuf.size ==>
          0 <= hw.ReadWait() < old(hw.ReadWait())
        decreases rxbuf.size - |rxbuf.Contents()|
      {
        var data := GetOne();
        incoming := incoming + [data];
        more := MayGet();
      }
    }

    method MayGet() returns (more: bool)
      requires Valid()
      modifies hw`readQueries
      ensures more ==> |rxbuf.Contents()| < rxbuf.size
      ensures !more && |rxbuf.Contents()| < rxbuf.size ==> 0 <= hw.ReadWait() < old(hw.ReadWait())
    {
      more := !rxbuf.Full();
      if more {
        more := hw.Readable();
      }
    }

    method GetOne() returns (data: Byte)
      requires Valid() && |rxbuf.Contents()| < rxbuf.size
      modifies hw`received, rxbuf, rxbuf.pool
      ensures Valid() && rxbuf.Contents() == old(rxbuf.Contents()) + [data]
      ensures hw.received == old(hw.received) + [data]
    {
      data := hw.Getc();
      rxbuf.Push(data);
    }

    // ---------------------------------------------------------------- interrupts between actions

    method TxInterrupt()
      requires Valid() && Snap().FlagsSafe(rxbuf.size)
      modifies this`txIrqEnabled, hw`writeQueries, hw`sent, txbuf
      ensures Valid() && OnlyInterrupts(old(Snap()), Snap(), [], rxbuf.size)
      ensures old(txIrqEnabled) && |Snap().line.tx| == |old(Snap()).line.tx| ==>
        0 <= hw.WriteWait() < old(hw.WriteWait())
    {
      ghost var before := Snap();
      if txIrqEnabled {
        ghost var count := TxIrq();
        TxIrqIsInterrupt(before, Snap(), count, rxbuf.size);
      } else {
        NoInterrupt(before, rxbuf.size);
      }
    }

    method RxInterrupt() returns (ghost incoming: seq<Byte>)
      requires Valid() && Snap().FlagsSafe(rxbuf.size)
      modifies this`rxIrqEnabled, hw`readQueries, hw`received, rxbuf, rxbuf.pool
      ensures Valid() && OnlyInterrupts(old(Snap()), Snap(), incoming, rxbuf.size)
      ensures old(rxIrqEnabled) && incoming == [] ==> 0 <= hw.ReadWait() < old(hw.ReadWait())
    {
      incoming := [];
      ghost var before := Snap();
      if rxIrqEnabled {
        incoming := RxIrq();
        RxIrqIsInterrupt(before, Snap(), incoming, rxbuf.size);
      } else {
        NoInterrupt(before, rxbuf.size);
      }
    }

    /** Any number of interrupts of either kind. */
    method Preempt() returns (ghost incoming: seq<Byte>)
      requires Valid() && Snap().FlagsSafe(rxbuf.size)
      modifies this`txIrqEnabled, this`rxIrqEnabled, hw, txbuf, rxbuf, rxbuf.pool
      ensures Valid() && OnlyInterrupts(old(Snap()), Snap(), incoming, rxbuf.size)
    {
      incoming := [];
      ghost var before := Snap();
      NoInterrupt(before, rxbuf.size);
      var rounds := hw.interruptsAt(hw.preemptions);
      hw.preemptions := hw.preemptions + 1;
      for i := 0 to rounds
        invariant Valid() && OnlyInterrupts(before, Snap(), incoming, rxbuf.size)
      {
        ghost var middle := Snap();
        ghost var more := OneOfEach();
        InterruptsCompose(before, middle, Snap(), incoming, more, rxbuf.size);
        incoming := incoming + more;
      }
    }

    method OneOfEach() returns (ghost incoming: seq<Byte>)
      requires Valid() && Snap().FlagsSafe(rxbuf.size)
      modifies this`txIrqEnabled, this`rxIrqEnabled, hw, txbuf, rxbuf, rxbuf.pool
      ensures Valid() && OnlyInterrupts(old(Snap()), Snap(), incoming, rxbuf.size)
      ensures old(txIrqEnabled) && |Snap().line.tx| == |old(Snap()).line.tx| ==>
        0 <= hw.WriteWait() < old(hw.WriteWait())
      ensures old(rxIrqEnabled) && incoming == [] ==> 0 <= hw.ReadWait() < old(hw.ReadWait())
    {
      ghost var first := Snap();
      TxInterrupt();
      ghost var second := Snap();
      incoming := RxInterrupt();
      InterruptsCompose(first, second, Snap(), [], incoming, rxbuf.size);
      assert [] + incoming == incoming;
    }

    /** One `wait_ms` of a blocked call: whichever interrupt is enabled gets its turn, so a wait in
        vain brings the peripheral's next yes closer. */
    method Sleep() returns (ghost incoming: seq<Byte>)
      requires Valid() && Snap().FlagsSafe(rxbuf.size)
      modifies this, hw, txbuf, rxbuf, rxbuf.pool
      ensures sleeps == old(sleeps) + 1
      ensures Valid() && OnlyInterrupts(old(Snap()), Snap(), incoming, rxbuf.size)
      ensures old(txIrqEnabled) && |Snap().line.tx| == |old(Snap()).line.tx| ==>
        0 <= hw.WriteWait() < old(hw.WriteWait())
      ensures old(rxIrqEnabled) && incoming == [] ==> 0 <= hw.ReadWait() < old(hw.ReadWait())
    {
      sleeps := sleeps + 1;
      ghost var first := Snap();
      incoming := OneOfEach();
      ghost var second := Snap();
      ghost var more := Preempt();
      InterruptsCompose(first, second, Snap(), incoming, more, rxbuf.size);
      incoming := incoming + more;
    }

    // ---------------------------------------------------------------- write

    /** `write`. `n` bytes were accepted: all of them when blocking, otherwise as many as fitted,
        and the result is that number, or `-EAGAIN` for none. */
    method Write(buffer: seq<Byte>, blocking: bool) returns (result: int, ghost n: nat, ghost incoming: seq<Byte>)
      requires Valid() && Snap().Quiet(rxbuf.size)
      modifies this, hw, txbuf, txbuf.pool, rxbuf, rxbuf.pool
      ensures Valid() && Snap().Quiet(rxbuf.size)
      ensures n <= |buffer| && WriteSoFar(old(Snap()), Snap(), buffer[..n], incoming, rxbuf.size)
      ensures n < |buffer| ==> !blocking && |Snap().line.tx| == txbuf.size
      ensures result == if buffer == [] then 0 else if n > 0 then n else -EAGAIN
      ensures result < 0 <==> buffer != [] && n == 0
      ensures !blocking ==> sleeps == old(sleeps)
    {
      ghost var start := Snap();
      var dataWritten := 0;
      n, incoming := 0, [];
      NothingWritten(start, rxbuf.size);
      if |buffer| == 0 {
        return 0, 0, [];
      }
      while dataWritten < |buffer|
        invariant dataWritten <= |buffer| && Valid() && Snap().Quiet(rxbuf.size)
        invariant WriteSoFar(start, Snap(), buffer[..dataWritten], incoming, rxbuf.size)
        invariant !blocking ==> sleeps == old(sleeps)
      {
        if txbuf.Full() && !blocking {
          break;
        }
        dataWritten, incoming := WriteRound(buffer, dataWritten, start, incoming);
      }
      n := dataWritten;
      result := if dataWritten != 0 then dataWritten else -EAGAIN;
    }

    /** One round of the outer loop of `write`, past the non-blocking exit. */
    method WriteRound(buffer: seq<Byte>, written: nat, ghost start: Snapshot, ghost already: seq<Byte>)
      returns (n: nat, ghost incoming: seq<Byte>)
      requires written < |buffer| && Valid() && Snap().Quiet(rxbuf.size)
      requires WriteSoFar(start, Snap(), buffer[..written], already, rxbuf.size)
      modifies this, hw, txbuf, txbuf.pool, rxbuf, rxbuf.pool
      ensures written < n <= |buffer| && Valid() && Snap().Quiet(rxbuf.size)
      ensures |old(Snap()).line.tx| < txbuf.size ==> sleeps == old(sleeps)
      ensures WriteSoFar(start, Snap(), buffer[..n], incoming, rxbuf.size)
    {
      ghost var before := Snap();
      ghost var more := WaitForRoom();
      WrittenThenInterrupted(start, before, Snap(), buffer[..written], already, more, rxbuf.size);
      n, incoming := PushAndStart(buffer, written, start, already + more);
    }

    /** The rest of the round, once there is room. */
    method PushAndStart(buffer: seq<Byte>, written: nat, ghost start: Snapshot, ghost already: seq<Byte>)
      returns (n: nat, ghost incoming: seq<Byte>)
      requires written < |buffer| && Valid() && |Snap().line.tx| < txbuf.size
      requires WriteSoFar(start, Snap(), buffer[..written], already, rxbuf.size)
      modifies this`txIrqEnabled, this`rxIrqEnabled, hw, txbuf, txbuf.pool, rxbuf, rxbuf.pool
      ensures written < n <= |buffer| && Valid() && Snap().Quiet(rxbuf.size)
      ensures WriteSoFar(start, Snap(), buffer[..n], incoming, rxbuf.size)
    {
      incoming := PreemptWrite(start, buffer[..written], already);
      n, incoming := PushSome(buffer, written, start, incoming);
      incoming := PreemptWrite(start, buffer[..n], incoming);
      ghost var before := Snap();
      StartTransfer();
      KickKeepsWritten(start, before, Snap(), buffer[..n], incoming, rxbuf.size);
      incoming := PreemptWrite(start, buffer[..n], incoming);
    }

    /** Interrupts between two actions of `write`. */
    method PreemptWrite(ghost start: Snapshot, ghost done: seq<Byte>, ghost already: seq<Byte>)
      returns (ghost incoming: seq<Byte>)
      requires Valid() && WriteSoFar(start, Snap(), done, already, rxbuf.size)
      modifies this`txIrqEnabled, this`rxIrqEnabled, hw, txbuf, rxbuf, rxbuf.pool
      ensures Valid() && WriteSoFar(start, Snap(), done, incoming, rxbuf.size)
      ensures |Snap().line.tx| <= |old(Snap()).line.tx| && (old(Snap()).TxQuiet() ==> Snap().TxQuiet())
    {
      ghost var before := Snap();
      ghost var more := Preempt();
      WrittenThenInterrupted(start, before, Snap(), done, already, more, rxbuf.size);
      incoming := already + more;
    }

    /** The sleeping loop of a blocking `write`: the transmit interrupt is on, so the peripheral
        eventually makes room. */
    method WaitForRoom() returns (ghost incoming: seq<Byte>)
      requires Valid() && Snap().Quiet(rxbuf.size)
      modifies this, hw, txbuf, rxbuf, rxbuf.pool
      ensures Valid() && Snap().Quiet(rxbuf.size) && |Snap().line.tx| < txbuf.size
      ensures |old(Snap()).line.tx| < txbuf.size ==> sleeps == old(sleeps)
      ensures OnlyInterrupts(old(Snap()), Snap(), incoming, rxbuf.size)
    {
      ghost var start := Snap();
      incoming := [];
      NoInterrupt(start, rxbuf.size);
      while txbuf.Full()
        invariant Valid() && OnlyInterrupts(start, Snap(), incoming, rxbuf.size)
        invariant |start.line.tx| < txbuf.size ==> sleeps == old(sleeps)
        decreases txbuf.Full(), hw.WriteWait()
      {
        ghost var before := Snap();
        ghost var more := Sleep();
        InterruptsCompose(start, before, Snap(), incoming, more, rxbuf.size);
        incoming := incoming + more;
      }
    }

    /** The inner loop of `write`. */
    method PushSome(buffer: seq<Byte>, written: nat, ghost start: Snapshot, ghost already: seq<Byte>)
      returns (n: nat, ghost incoming: seq<Byte>)
      requires written < |buffer| && Valid() && |Snap().line.tx| < txbuf.size
      requires WriteSoFar(start, Snap(), buffer[..written], already, rxbuf.size)
      modifies this`txIrqEnabled, this`rxIrqEnabled, hw, txbuf, txbuf.pool, rxbuf, rxbuf.pool
      ensures written < n <= |buffer| && Valid()
      ensures WriteSoFar(start, Snap(), buffer[..n], incoming, rxbuf.size)
    {
      n, incoming := written, already;
      while n < |buffer| && !txbuf.Full()
        invariant written <= n <= |buffer| && Valid()
        invariant n == written ==> |Snap().line.tx| < txbuf.size
        invariant WriteSoFar(start, Snap(), buffer[..n], incoming, rxbuf.size)
      {
        incoming := PreemptWrite(start, buffer[..n], incoming);
        ghost var before := Snap();
        txbuf.Push(buffer[n]);
        PushKeepsWritten(start, before, Snap(), buffer, n, incoming, rxbuf.size);
        n := n + 1;
        incoming := PreemptWrite(start, buffer[..n], incoming);
      }
    }

    /** The critical section of `write`. */
    method StartTransfer()
      requires Valid() && Snap().FlagsSafe(rxbuf.size)
      modifies this`txIrqEnabled, hw`writeQueries, hw`sent, txbuf
      ensures Valid() && exists count :: 0 <= count <= |old(View()).tx| && View() == P.TxKick(old(View()), count)
    {
      ghost var before, count := View(), 0;
      if !txIrqEnabled {
        count := TxIrq();
        if !txbuf.Empty() {
          txIrqEnabled := true;
        }
      }
      assert View() == P.TxKick(before, count);
    }

    // ---------------------------------------------------------------- read

    /** `read`. It returns `-EAGAIN` only when not blocking and nothing has arrived; otherwise at
        least one byte and at most `length`, the oldest received. */
    method Read(length: nat, blocking: bool) returns (result: int, data: seq<Byte>, ghost incoming: seq<Byte>)
      requires Valid() && Snap().Quiet(rxbuf.size)
      modifies this, hw, txbuf, rxbuf, rxbuf.pool
      ensures Valid() && Snap().Quiet(rxbuf.size)
      ensures ReadSoFar(old(Snap()), Snap(), data, incoming, rxbuf.size)
      ensures result == if length == 0 then 0 else if data != [] then |data| else -EAGAIN
      ensures result < 0 <==> length > 0 && data == []
      ensures !blocking ==> sleeps == old(sleeps)
      ensures |data| <= length && (data == [] && length > 0 ==> !blocking && Snap().line.rx == [])
    {
      ghost var start := Snap();
      data, incoming := [], [];
      NothingRead(start, rxbuf.size);
      if length == 0 {
        return 0, [], [];
      }
      if rxbuf.Empty() && !blocking {
        return -EAGAIN, [], [];
      }
      incoming := WaitForData();
      ReadThenInterrupted(start, start, Snap(), [], [], incoming, rxbuf.size);
      assert [] + incoming == incoming;
      data, incoming := PopAndStart(length, start, incoming);
      result := |data|;
    }

    /** The rest of `read`, once there is data. */
    method PopAndStart(length: nat, ghost start: Snapshot, ghost already: seq<Byte>)
      returns (data: seq<Byte>, ghost incoming: seq<Byte>)
      requires 0 < length && Valid() && Snap().line.rx != []
      requires ReadSoFar(start, Snap(), [], already, rxbuf.size)
      modifies this`txIrqEnabled, this`rxIrqEnabled, hw, txbuf, rxbuf, rxbuf.pool
      ensures Valid() && Snap().Quiet(rxbuf.size) && 0 < |data| <= length
      ensures ReadSoFar(start, Snap(), data, incoming, rxbuf.size)
    {
      incoming := PreemptRead(start, [], already);
      data, incoming := PopSome(length, start, incoming);
      incoming := PreemptRead(start, data, incoming);
      ghost var before := Snap();
      ghost var more := StartReception();
      KickKeepsRead(start, before, Snap(), data, incoming, more, rxbuf.size);
      incoming := incoming + more;
    }

    /** The sleeping loop of a blocking `read`. */
    method WaitForData() returns (ghost incoming: seq<Byte>)
      requires Valid() && Snap().Quiet(rxbuf.size)
      modifies this, hw, txbuf, rxbuf, rxbuf.pool
      ensures Valid() && Snap().Quiet(rxbuf.size) && Snap().line.rx != []
      ensures old(Snap()).line.rx != [] ==> sleeps == old(sleeps)
      ensures OnlyInterrupts(old(Snap()), Snap(), incoming, rxbuf.size)
    {
      ghost var start := Snap();
      incoming := [];
      NoInterrupt(start, rxbuf.size);
      while rxbuf.Empty()
        invariant Valid() && OnlyInterrupts(start, Snap(), incoming, rxbuf.size)
        invariant start.line.rx != [] ==> sleeps == old(sleeps)
        decreases rxbuf.Empty(), hw.ReadWait()
      {
        ghost var before := Snap();
        ghost var more := Sleep();
        InterruptsCompose(start, before, Snap(), incoming, more, rxbuf.size);
        incoming := incoming + more;
      }
    }

    /** Interrupts between two actions of `read`. */
    method PreemptRead(ghost start: Snapshot, ghost data: seq<Byte>, ghost already: seq<Byte>)
      returns (ghost incoming: seq<Byte>)
      requires Valid() && ReadSoFar(start, Snap(), data, already, rxbuf.size)
      modifies this`txIrqEnabled, this`rxIrqEnabled, hw, txbuf, rxbuf, rxbuf.pool
      ensures Valid() && ReadSoFar(start, Snap(), data, incoming, rxbuf.size)
      ensures old(Snap()).line.rx <= Snap().line.rx
    {
      ghost var before := Snap();
      ghost var more := Preempt();
      ReadThenInterrupted(start, before, Snap(), data, already, more, rxbuf.size);
      incoming := already + more;
    }

    /** The popping loop of `read`. */
    method PopSome(length: nat, ghost start: Snapshot, ghost already: seq<Byte>)
      returns (data: seq<Byte>, ghost incoming: seq<Byte>)
      requires 0 < length && Valid() && Snap().line.rx != []
      requires ReadSoFar(start, Snap(), [], already, rxbuf.size)
      modifies this`txIrqEnabled, this`rxIrqEnabled, hw, txbuf, rxbuf, rxbuf.pool
      ensures Valid() && 0 < |data| <= length
      ensures ReadSoFar(start, Snap(), data, incoming, rxbuf.size)
    {
      data, incoming := [], already;
      while |data| < length && !rxbuf.Empty()
        invariant |data| <= length && Valid()
        invariant data == [] ==> Snap().line.rx != []
        invariant ReadSoFar(start, Snap(), data, incoming, rxbuf.size)
        decreases length - |data|
      {
        incoming := PreemptRead(start, data, incoming);
        ghost var before := Snap();
        var popped, b := rxbuf.Pop();
        PopKeepsRead(start, before, Snap(), data, b, incoming, rxbuf.size);
        data := data + [b];
        incoming := PreemptRead(start, data, incoming);
      }
    }

    /** The critical section of `read`. */
    method StartReception() returns (ghost incoming: seq<Byte>)
      requires Valid() && Snap().FlagsSafe(rxbuf.size)
      modifies this`rxIrqEnabled, hw`readQueries, hw`received, rxbuf, rxbuf.pool
      ensures Valid() && (old(rxIrqEnabled) ==> incoming == [])
      ensures |old(View()).rx| + |incoming| <= rxbuf.size && View() == P.RxKick(old(View()), incoming, rxbuf.size)
    {
      incoming := [];
      if !rxIrqEnabled {
        incoming := RxIrq();
        if !rxbuf.Full() {
          rxIrqEnabled := true;
        }
      }
    }
  }

  /** From `a` to `c` a call of `read` has taken `data` out, while interrupts brought in
      `incoming`. */
  ghost predicate ReadSoFar(a: Snapshot, c: Snapshot, data: seq<Byte>, incoming: seq<Byte>, rxSize: nat) {
    && data + c.line.rx == a.line.rx + incoming
    && c.line.received == a.line.received + incoming
    && c.Stream() == a.Stream()
    && c.FlagsSafe(rxSize) && c.TxQuiet()
  }

  lemma NothingRead(a: Snapshot, rxSize: nat)
    requires a.Quiet(rxSize)
    ensures ReadSoFar(a, a, [], [], rxSize)
  {
    assert [] + a.line.rx == a.line.rx + [] && a.line.received + [] == a.line.received;
  }

  lemma ReadThenInterrupted(a: Snapshot, b: Snapshot, c: Snapshot, data: seq<Byte>, first: seq<Byte>,
                            second: seq<Byte>, rxSize: nat)
    requires ReadSoFar(a, b, data, first, rxSize) && OnlyInterrupts(b, c, second, rxSize)
    ensures ReadSoFar(a, c, data, first + second, rxSize)
  {
    assert data + (b.line.rx + second) == (data + b.line.rx) + second;
    assert (a.line.rx + first) + second == a.line.rx + (first + second);
    assert (a.line.received + first) + second == a.line.received + (first + second);
  }

  lemma PopKeepsRead(a: Snapshot, b: Snapshot, c: Snapshot, data: seq<Byte>, x: Byte, incoming: seq<Byte>, rxSize: nat)
    requires ReadSoFar(a, b, data, incoming, rxSize) && [x] + c.line.rx == b.line.rx
    requires c.line == b.line.(rx := c.line.rx)
    ensures ReadSoFar(a, c, data + [x], incoming, rxSize)
  {
    assert (data + [x]) + c.line.rx == data + ([x] + c.line.rx);
  }

  lemma KickKeepsRead(a: Snapshot, b: Snapshot, c: Snapshot, data: seq<Byte>, first: seq<Byte>, second: seq<Byte>,
                      rxSize: nat)
    requires ReadSoFar(a, b, data, first, rxSize) && |b.line.rx| + |second| <= rxSize
    requires c.line == P.RxKick(b.line, second, rxSize) && (b.line.rxIrqEnabled ==> second == [])
    ensures ReadSoFar(a, c, data, first + second, rxSize) && c.RxQuiet(rxSize)
  {
    assert data + (b.line.rx + second) == (data + b.line.rx) + second;
    assert (a.line.rx + first) + second == a.line.rx + (first + second);
    assert (a.line.received + first) + second == a.line.received + (first + second);
    assert first + [] == first;
  }

  /** From `a` to `c` a call of `write` has put `done` into the stream, while interrupts brought in
      `incoming`. */
  ghost predicate WriteSoFar(a: Snapshot, c: Snapshot, done: seq<Byte>, incoming: seq<Byte>, rxSize: nat) {
    && c.Stream() == a.Stream() + done
    && c.line.rx == a.line.rx + incoming
    && c.line.received == a.line.received + incoming
    && c.FlagsSafe(rxSize) && c.RxQuiet(rxSize)
  }

  lemma NothingWritten(a: Snapshot, rxSize: nat)
    requires a.Quiet(rxSize)
    ensures WriteSoFar(a, a, [], [], rxSize)
  {
    assert a.Stream() + [] == a.Stream();
    assert a.line.rx + [] == a.line.rx && a.line.received + [] == a.line.received;
  }

  lemma WrittenThenInterrupted(a: Snapshot, b: Snapshot, c: Snapshot, done: seq<Byte>, first: seq<Byte>,
                               second: seq<Byte>, rxSize: nat)
    requires WriteSoFar(a, b, done, first, rxSize) && OnlyInterrupts(b, c, second, rxSize)
    ensures WriteSoFar(a, c, done, first + second, rxSize)
  {
    assert (a.line.rx + first) + second == a.line.rx + (first + second);
    assert (a.line.received + first) + second == a.line.received + (first + second);
  }

  lemma PushKeepsWritten(a: Snapshot, b: Snapshot, c: Snapshot, buffer: seq<Byte>, n: nat, incoming: seq<Byte>,
                         rxSize: nat)
    requires n < |buffer| && WriteSoFar(a, b, buffer[..n], incoming, rxSize)
    requires c.line == b.line.(tx := b.line.tx + [buffer[n]])
    ensures WriteSoFar(a, c, buffer[..n + 1], incoming, rxSize)
  {
    assert c.Stream() == b.Stream() + [buffer[n]];
    assert a.Stream() + buffer[..n + 1] == (a.Stream() + buffer[..n]) + [buffer[n]];
  }

  lemma KickKeepsWritten(a: Snapshot, b: Snapshot, c: Snapshot, done: seq<Byte>, incoming: seq<Byte>, rxSize: nat)
    requires WriteSoFar(a, b, done, incoming, rxSize)
    requires exists count :: 0 <= count <= |b.line.tx| && c.line == P.TxKick(b.line, count)
    ensures WriteSoFar(a, c, done, incoming, rxSize) && c.TxQuiet()
  {
    var count :| 0 <= count <= |b.line.tx| && c.line == P.TxKick(b.line, count);
    P.TxIrqConserves(b.line, count);
  }

  lemma NoInterrupt(a: Snapshot, rxSize: nat)
    requires a.FlagsSafe(rxSize)
    ensures OnlyInterrupts(a, a, [], rxSize)
  {
    assert a.line.rx + [] == a.line.rx && a.line.received + [] == a.line.received;
  }
}
