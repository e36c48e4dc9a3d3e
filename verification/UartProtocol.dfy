/** `UARTSerial` as a protocol: any number of threads in `write`, `read` and `sync`, one mutex, and
    the two interrupt handlers, interleaved at every step that the code makes atomic: a ring
    buffer call, a critical section, an interrupt handler, a mutex operation. */
module UartProtocol {
  import opened Prelude
  import opened RingBuffer

  type Byte = b: nat | b < 256
  type Tid = nat

  /** The two software buffers, the interrupt flags, and the history of the wire. */
  datatype Line = Line(
    tx: seq<Byte>,
    rx: seq<Byte>,
    txIrqEnabled: bool,
    rxIrqEnabled: bool,
    sent: seq<Byte>,
    received: seq<Byte>)

  /** `tx_irq`, when the peripheral takes `count` bytes before the loop ends. */
  function TxIrq(l: Line, count: nat): Line
    requires count <= |l.tx|
  {
    var l' := l.(tx := l.tx[count..], sent := l.sent + l.tx[..count]);
    if l'.tx == [] then l'.(txIrqEnabled := false) else l'
  }

  /** `rx_irq`, when the peripheral hands over `incoming` before the loop ends. */
  function RxIrq(l: Line, incoming: seq<Byte>, rxSize: nat): Line {
    var l' := l.(rx := l.rx + incoming, received := l.received + incoming);
    if |l'.rx| >= rxSize then l'.(rxIrqEnabled := false) else l'
  }

  /** The critical section at the end of a round of `write`. */
  function TxKick(l: Line, count: nat): Line
    requires count <= |l.tx|
  {
    if l.txIrqEnabled then l
    else
      var l' := TxIrq(l, count);
      if l'.tx != [] then l'.(txIrqEnabled := true) else l'
  }

  /** The critical section at the end of `read`. */
  function RxKick(l: Line, incoming: seq<Byte>, rxSize: nat): Line {
    if l.rxIrqEnabled then l
    else
      var l' := RxIrq(l, incoming, rxSize);
      if |l'.rx| < rxSize then l'.(rxIrqEnabled := true) else l'
  }

  /** Where a thread is. The names say what it does next. */
  datatype Pc =
    | Idle
    | WriteLock(buf: seq<Byte>)
    | WriteRound(buf: seq<Byte>, n: nat)
    | WriteSleep(buf: seq<Byte>, n: nat)
    | WriteRecheck(buf: seq<Byte>, n: nat)
    | WriteTest(buf: seq<Byte>, n: nat)
    | WritePush(buf: seq<Byte>, n: nat)
    | WriteKick(buf: seq<Byte>, n: nat)
    | ReadLock(length: nat)
    | ReadCheck(length: nat)
    | ReadSleep(length: nat)
    | ReadTest(length: nat, got: seq<Byte>)
    | ReadPop(length: nat, got: seq<Byte>)
    | ReadKick(length: nat, got: seq<Byte>)
    | ReadReturn(got: seq<Byte>)
    | SyncLock
    | SyncCheck
    | SyncSleep
  {
    predicate HoldsMutex() {
      || WriteRound? || WriteRecheck? || WriteTest? || WritePush? || WriteKick?
      || ReadCheck? || ReadTest? || ReadPop? || ReadKick? || ReadReturn?
      || SyncCheck?
    }

    /** Between the first push of a round of `write` and the end of its critical section. */
    predicate InTxWindow() {
      WriteTest? || WritePush? || WriteKick?
    }

    predicate InRxWindow() {
      ReadTest? || ReadPop? || ReadKick?
    }

    /** Bytes of the current call already in the transmit buffer, or already taken out of the
        receive buffer. */
    function Written(): seq<Byte> {
      match this
      case WriteRound(buf, n) => Taken(buf, n)
      case WriteSleep(buf, n) => Taken(buf, n)
      case WriteRecheck(buf, n) => Taken(buf, n)
      case WriteTest(buf, n) => Taken(buf, n)
      case WritePush(buf, n) => Taken(buf, n)
      case WriteKick(buf, n) => Taken(buf, n)
      case _ => []
    }

    function Got(): seq<Byte> {
      if ReadTest? || ReadPop? || ReadKick? || ReadReturn? then got else []
    }
  }

  function Taken(buf: seq<Byte>, n: nat): seq<Byte> {
    if n <= |buf| then buf[..n] else buf
  }

  /** `accepted` and `delivered` record every byte pushed by a `write` and popped by a `read`, in
      order, with the thread; `written` and `read` collect, per thread, the bytes that its finished
      calls reported. */
  datatype Uart = Uart(
    line: Line,
    mutex: Option<Tid>,
    threads: map<Tid, Pc>,
    accepted: seq<(Tid, Byte)>,
    delivered: seq<(Tid, Byte)>,
    written: map<Tid, seq<Byte>>,
    read: map<Tid, seq<Byte>>)
  {
    function PcOf(t: Tid): Pc {
      if t in threads then threads[t] else Idle
    }

    function WrittenBy(t: Tid): seq<Byte> {
      if t in written then written[t] else []
    }

    function ReadBy(t: Tid): seq<Byte> {
      if t in read then read[t] else []
    }

    function Goto(t: Tid, pc: Pc): Uart {
      this.(threads := threads[t := pc])
    }
  }

  /** A thread's step carries what its surroundings decide: whether the file is blocking at that
      moment, and what the peripheral does in a critical section. */
  datatype Step =
    | StartWrite(t: Tid, buf: seq<Byte>)
    | StartRead(t: Tid, length: nat)
    | StartSync(t: Tid)
    | Run(t: Tid, blocking: bool, count: nat, incoming: seq<Byte>)
    | TxInterrupt(count: nat)
    | RxInterrupt(incoming: seq<Byte>)

  /** The sizes of the two buffers. */
  datatype Sizes = Sizes(tx: nat, rx: nat) {
    predicate Valid() {
      0 < tx && 0 < rx
    }
  }

  predicate Enabled(u: Uart, s: Step, z: Sizes) {
    match s
    case StartWrite(t, buf) => u.PcOf(t).Idle?
    case StartRead(t, length) => u.PcOf(t).Idle?
    case StartSync(t) => u.PcOf(t).Idle?
    case Run(t, blocking, count, incoming) =>
      var pc := u.PcOf(t);
      && !pc.Idle?
      && (pc.HoldsMutex() || u.mutex.None?)
      && count <= |u.line.tx|
      && |u.line.rx| + |incoming| <= z.rx
    case TxInterrupt(count) => u.line.txIrqEnabled && count <= |u.line.tx|
    case RxInterrupt(incoming) => u.line.rxIrqEnabled && |u.line.rx| + |incoming| <= z.rx
  }

  function Lock(u: Uart, t: Tid, pc: Pc): Uart {
    u.Goto(t, pc).(mutex := Some(t))
  }

  function Unlock(u: Uart, t: Tid, pc: Pc): Uart {
    u.Goto(t, pc).(mutex := None)
  }

  function FinishWrite(u: Uart, t: Tid, buf: seq<Byte>, n: nat): Uart {
    Unlock(u, t, Idle).(written := u.written[t := u.WrittenBy(t) + Taken(buf, n)])
  }

  function AfterPush(u: Uart, t: Tid, buf: seq<Byte>, n: nat, z: Sizes): Uart
    requires n < |buf| && z.Valid()
  {
    u.Goto(t, WriteTest(buf, n + 1)).(
      line := u.line.(tx := Pushed(u.line.tx, buf[n], z.tx)),
      accepted := u.accepted + [(t, buf[n])])
  }

  function AfterPop(u: Uart, t: Tid, length: nat, got: seq<Byte>): Uart
    requires u.line.rx != []
  {
    u.Goto(t, ReadTest(length, got + [u.line.rx[0]])).(
      line := u.line.(rx := u.line.rx[1..]),
      delivered := u.delivered + [(t, u.line.rx[0])])
  }

  /** The next atomic step of a thread. */
  function RunThread(u: Uart, t: Tid, blocking: bool, count: nat, incoming: seq<Byte>, z: Sizes): Uart
    requires count <= |u.line.tx| && z.Valid()
  {
    match u.PcOf(t)
    case Idle => u
    case WriteLock(buf) => if buf == [] then u.Goto(t, Idle) else Lock(u, t, WriteRound(buf, 0))
    case WriteRound(buf, n) =>
      if n >= |buf| then FinishWrite(u, t, buf, n)
      else if |u.line.tx| < z.tx then u.Goto(t, WriteTest(buf, n))
      else if blocking then Unlock(u, t, WriteSleep(buf, n))
      else FinishWrite(u, t, buf, n)
    case WriteSleep(buf, n) => Lock(u, t, WriteRecheck(buf, n))
    case WriteRecheck(buf, n) =>
      if |u.line.tx| < z.tx then u.Goto(t, WriteTest(buf, n)) else Unlock(u, t, WriteSleep(buf, n))
    case WriteTest(buf, n) =>
      if n < |buf| && |u.line.tx| < z.tx then u.Goto(t, WritePush(buf, n)) else u.Goto(t, WriteKick(buf, n))
    case WritePush(buf, n) =>
      if n < |buf| then AfterPush(u, t, buf, n, z) else u
    case WriteKick(buf, n) => u.Goto(t, WriteRound(buf, n)).(line := TxKick(u.line, count))
    case ReadLock(length) => if length == 0 then u.Goto(t, Idle) else Lock(u, t, ReadCheck(length))
    case ReadCheck(length) =>
      if u.line.rx != [] then u.Goto(t, ReadTest(length, []))
      else if blocking then Unlock(u, t, ReadSleep(length))
      else Unlock(u, t, Idle)
    case ReadSleep(length) => Lock(u, t, ReadCheck(length))
    case ReadTest(length, got) =>
      if |got| < length && u.line.rx != [] then u.Goto(t, ReadPop(length, got)) else u.Goto(t, ReadKick(length, got))
    case ReadPop(length, got) =>
      if u.line.rx != [] then AfterPop(u, t, length, got) else u
    case ReadKick(length, got) => u.Goto(t, ReadReturn(got)).(line := RxKick(u.line, incoming, z.rx))
    case ReadReturn(got) => Unlock(u, t, Idle).(read := u.read[t := u.ReadBy(t) + got])
    case SyncLock => Lock(u, t, SyncCheck)
    case SyncCheck => if u.line.tx == [] then Unlock(u, t, Idle) else Unlock(u, t, SyncSleep)
    case SyncSleep => Lock(u, t, SyncCheck)
  }

  function Next(u: Uart, s: Step, z: Sizes): Uart
    requires Enabled(u, s, z) && z.Valid()
  {
    match s
    case StartWrite(t, buf) => u.Goto(t, WriteLock(buf))
    case StartRead(t, length) => u.Goto(t, ReadLock(length))
    case StartSync(t) => u.Goto(t, SyncLock)
    case Run(t, blocking, count, incoming) => RunThread(u, t, blocking, count, incoming, z)
    case TxInterrupt(count) => u.(line := TxIrq(u.line, count))
    case RxInterrupt(incoming) => u.(line := RxIrq(u.line, incoming, z.rx))
  }

  // ---------------------------------------------------------------- what every step keeps

  function Bytes(log: seq<(Tid, Byte)>): seq<Byte> {
    seq(|log|, i requires 0 <= i < |log| => log[i].1)
  }

  /** The bytes of one thread, in order. */
  function Of(log: seq<(Tid, Byte)>, t: Tid): seq<Byte> {
    if log == [] then []
    else
      var last := log[|log| - 1];
      Of(log[..|log| - 1], t) + if last.0 == t then [last.1] else []
  }

  /** Nothing is lost, duplicated or reordered in either direction, and no push overwrites. */
  ghost predicate StreamsConserved(u: Uart, z: Sizes) {
    && |u.line.tx| <= z.tx
    && |u.line.rx| <= z.rx
    && u.line.sent + u.line.tx == Bytes(u.accepted)
    && Bytes(u.delivered) + u.line.rx == u.line.received
  }

  predicate OwnerInTxWindow(u: Uart) {
    u.mutex.Some? && u.PcOf(u.mutex.value).InTxWindow()
  }

  predicate OwnerInRxWindow(u: Uart) {
    u.mutex.Some? && u.PcOf(u.mutex.value).InRxWindow()
  }

  /** An enabled interrupt has work to do; and, except in the short window before a critical
      section, work to do means an enabled interrupt. */
  ghost predicate FlagsCorrect(u: Uart, z: Sizes) {
    && (u.line.txIrqEnabled ==> u.line.tx != [])
    && (u.line.rxIrqEnabled ==> |u.line.rx| < z.rx)
    && (u.line.tx != [] ==> u.line.txIrqEnabled || OwnerInTxWindow(u))
    && (|u.line.rx| < z.rx ==> u.line.rxIrqEnabled || OwnerInRxWindow(u))
  }

  ghost predicate MutexHeld(u: Uart) {
    forall t: Tid :: u.PcOf(t).HoldsMutex() <==> u.mutex == Some(t)
  }

  /** What one thread's finished calls reported, and what its current call has done so far, is
      exactly its part of the history. */
  ghost predicate ThreadAccounted(u: Uart, t: Tid, z: Sizes) {
    var pc := u.PcOf(t);
    && Of(u.accepted, t) == u.WrittenBy(t) + pc.Written()
    && Of(u.delivered, t) == u.ReadBy(t) + pc.Got()
    && (pc.WriteRound? || pc.WriteSleep? || pc.WriteRecheck? || pc.WriteTest? || pc.WriteKick? ==> pc.n <= |pc.buf|)
    && (pc.WriteSleep? || pc.WriteRecheck? ==> pc.n < |pc.buf|)
    && (pc.WritePush? ==> pc.n < |pc.buf| && |u.line.tx| < z.tx)
    && (pc.ReadPop? ==> |pc.got| < pc.length && u.line.rx != [])
  }

  ghost predicate Inv(u: Uart, z: Sizes) {
    && StreamsConserved(u, z)
    && FlagsCorrect(u, z)
    && MutexHeld(u)
    && forall t: Tid :: ThreadAccounted(u, t, z)
  }

  const INITIAL := Uart(Line([], [], false, true, [], []), None, map[], [], [], map[], map[])

  lemma InitialInv(z: Sizes)
    requires z.Valid()
    ensures Inv(INITIAL, z)
  {
  }

  lemma OfAppend(log: seq<(Tid, Byte)>, entry: (Tid, Byte), t: Tid)
    ensures Of(log + [entry], t) == Of(log, t) + if entry.0 == t then [entry.1] else []
    ensures Bytes(log + [entry]) == Bytes(log) + [entry.1]
  {
    assert (log + [entry])[..|log + [entry]| - 1] == log;
  }

  lemma TxInterruptKeepsInv(u: Uart, count: nat, z: Sizes)
    requires Inv(u, z) && z.Valid() && Enabled(u, TxInterrupt(count), z)
    ensures Inv(Next(u, TxInterrupt(count), z), z)
  {
    var u' := u.(line := TxIrq(u.line, count));
    TxIrqConserves(u.line, count);
    SameThreads(u, u', z);
  }

  /** A step that touches neither threads nor logs, and that only frees the transmit buffer and fills
      the receive buffer. */
  lemma SameThreads(u: Uart, u': Uart, z: Sizes)
    requires MutexHeld(u) && u'.mutex == u.mutex && u'.threads == u.threads
    requires u'.accepted == u.accepted && u'.delivered == u.delivered && u'.written == u.written && u'.read == u.read
    requires |u'.line.tx| <= |u.line.tx| && (u.line.rx != [] ==> u'.line.rx != [])
    requires forall t: Tid :: ThreadAccounted(u, t, z)
    ensures MutexHeld(u') && forall t: Tid :: ThreadAccounted(u', t, z)
  {
    assert forall t: Tid :: u'.PcOf(t) == u.PcOf(t);
    forall t: Tid ensures ThreadAccounted(u', t, z) {
      assert ThreadAccounted(u, t, z);
    }
  }

  lemma RxInterruptKeepsInv(u: Uart, incoming: seq<Byte>, z: Sizes)
    requires Inv(u, z) && z.Valid() && Enabled(u, RxInterrupt(incoming), z)
    ensures Inv(Next(u, RxInterrupt(incoming), z), z)
  {
    var u' := u.(line := RxIrq(u.line, incoming, z.rx));
    assert Bytes(u.delivered) + (u.line.rx + incoming) == u.line.received + incoming;
    SameThreads(u, u', z);
  }

  lemma TxIrqConserves(l: Line, count: nat)
    requires count <= |l.tx|
    ensures TxIrq(l, count).sent + TxIrq(l, count).tx == l.sent + l.tx
  {
    assert l.tx == l.tx[..count] + l.tx[count..];
  }

  /** Other threads do not notice a step of `t` that leaves the line alone, or that `t` takes while
      no other thread holds the mutex. */
  lemma OthersAccounted(u: Uart, u': Uart, t: Tid, z: Sizes)
    requires Inv(u, z)
    requires forall x: Tid :: x != t ==>
      && u'.PcOf(x) == u.PcOf(x) && u'.WrittenBy(x) == u.WrittenBy(x) && u'.ReadBy(x) == u.ReadBy(x)
      && Of(u'.accepted, x) == Of(u.accepted, x) && Of(u'.delivered, x) == Of(u.delivered, x)
    requires u'.line == u.line || u.mutex == Some(t)
    ensures forall x: Tid :: x != t ==> ThreadAccounted(u', x, z)
  {
    forall x: Tid | x != t ensures ThreadAccounted(u', x, z) {
      assert ThreadAccounted(u, x, z);
    }
  }

  /** A step that only moves thread `t`, locking or unlocking as its new place demands. */
  lemma MoveKeepsInv(u: Uart, t: Tid, pc: Pc, z: Sizes)
    requires Inv(u, z) && z.Valid() && (u.mutex.None? || u.mutex == Some(t) || !pc.HoldsMutex())
    requires u.mutex != Some(t) ==> !u.PcOf(t).HoldsMutex()
    requires pc.Written() == u.PcOf(t).Written() && pc.Got() == u.PcOf(t).Got()
    requires (u.PcOf(t).InTxWindow() ==> pc.InTxWindow()) && (u.PcOf(t).InRxWindow() ==> pc.InRxWindow())
    requires pc.WriteRound? || pc.WriteSleep? || pc.WriteRecheck? || pc.WriteTest? || pc.WriteKick? ==> pc.n <= |pc.buf|
    requires pc.WriteSleep? || pc.WriteRecheck? ==> pc.n < |pc.buf|
    requires pc.WritePush? ==> pc.n < |pc.buf| && |u.line.tx| < z.tx
    requires pc.ReadPop? ==> |pc.got| < pc.length && u.line.rx != []
    ensures var mutex := if pc.HoldsMutex() then Some(t) else if u.mutex == Some(t) then None else u.mutex;
      Inv(u.Goto(t, pc).(mutex := mutex), z)
  {
    var mutex := if pc.HoldsMutex() then Some(t) else if u.mutex == Some(t) then None else u.mutex;
    var u' := u.Goto(t, pc).(mutex := mutex);
    assert ThreadAccounted(u, t, z);
    OthersAccounted(u, u', t, z);
    MoveKeepsMutex(u, u', t);
    MoveKeepsFlags(u, u', t, z);
  }

  lemma MoveKeepsFlags(u: Uart, u': Uart, t: Tid, z: Sizes)
    requires FlagsCorrect(u, z) && MutexHeld(u) && MutexHeld(u') && u'.line == u.line
    requires (u.PcOf(t).InTxWindow() ==> u'.PcOf(t).InTxWindow())
    requires u.PcOf(t).InRxWindow() ==> u'.PcOf(t).InRxWindow()
    requires forall x: Tid :: x != t ==> u'.PcOf(x) == u.PcOf(x)
    requires u.mutex.Some? && u.mutex != Some(t) ==> u'.mutex == u.mutex
    ensures FlagsCorrect(u', z)
  {
    if u.mutex == Some(t) {
      assert u'.PcOf(t).HoldsMutex() <==> u'.mutex == Some(t);
    }
  }

  lemma MoveKeepsMutex(u: Uart, u': Uart, t: Tid)
    requires MutexHeld(u) && (u.mutex.None? || u.mutex == Some(t) || !u'.PcOf(t).HoldsMutex())
    requires u'.mutex == if u'.PcOf(t).HoldsMutex() then Some(t) else if u.mutex == Some(t) then None else u.mutex
    requires forall x: Tid :: x != t ==> u'.PcOf(x) == u.PcOf(x)
    ensures MutexHeld(u')
  {
  }

  lemma PushKeepsInv(u: Uart, t: Tid, z: Sizes)
    requires Inv(u, z) && z.Valid() && u.PcOf(t).WritePush? && ThreadAccounted(u, t, z)
    ensures Inv(AfterPush(u, t, u.PcOf(t).buf, u.PcOf(t).n, z), z)
  {
    var u' := AfterPush(u, t, u.PcOf(t).buf, u.PcOf(t).n, z);
    PushedConserved(u, t, z);
    PushAccounts(u, t, z);
    PushKeepsFlags(u, t, z);
    StaysInside(u, u', t);
  }

  lemma PushKeepsFlags(u: Uart, t: Tid, z: Sizes)
    requires FlagsCorrect(u, z) && MutexHeld(u) && z.Valid() && u.PcOf(t).WritePush? && ThreadAccounted(u, t, z)
    ensures FlagsCorrect(AfterPush(u, t, u.PcOf(t).buf, u.PcOf(t).n, z), z)
  {
    assert u.PcOf(t).HoldsMutex();
  }

  lemma PushAccounts(u: Uart, t: Tid, z: Sizes)
    requires Inv(u, z) && z.Valid() && u.PcOf(t).WritePush? && ThreadAccounted(u, t, z)
    ensures forall x: Tid :: ThreadAccounted(AfterPush(u, t, u.PcOf(t).buf, u.PcOf(t).n, z), x, z)
  {
    var pc := u.PcOf(t);
    var u' := AfterPush(u, t, pc.buf, pc.n, z);
    forall x: Tid | x != t ensures Of(u'.accepted, x) == Of(u.accepted, x) {
      OfAppend(u.accepted, (t, pc.buf[pc.n]), x);
    }
    assert u.PcOf(t).HoldsMutex();
    OthersAccounted(u, u', t, z);
    PushedAccounted(u.accepted, t, u.WrittenBy(t), pc.buf, pc.n);
    assert ThreadAccounted(u', t, z);
  }

  /** A step inside the mutex leaves its ownership alone. */
  lemma StaysInside(u: Uart, u': Uart, t: Tid)
    requires MutexHeld(u) && u'.mutex == u.mutex && u'.PcOf(t).HoldsMutex() == u.PcOf(t).HoldsMutex()
    requires forall x: Tid :: x != t ==> u'.PcOf(x) == u.PcOf(x)
    ensures MutexHeld(u')
  {
  }

  lemma PushedConserved(u: Uart, t: Tid, z: Sizes)
    requires StreamsConserved(u, z) && z.Valid() && u.PcOf(t).WritePush? && ThreadAccounted(u, t, z)
    ensures StreamsConserved(AfterPush(u, t, u.PcOf(t).buf, u.PcOf(t).n, z), z)
  {
    var b := u.PcOf(t).buf[u.PcOf(t).n];
    OfAppend(u.accepted, (t, b), t);
    assert u.line.sent + (u.line.tx + [b]) == u.line.sent + u.line.tx + [b];
  }

  lemma PushedAccounted(log: seq<(Tid, Byte)>, t: Tid, earlier: seq<Byte>, buf: seq<Byte>, n: nat)
    requires n < |buf| && Of(log, t) == earlier + Taken(buf, n)
    ensures Of(log + [(t, buf[n])], t) == earlier + Taken(buf, n + 1)
  {
    OfAppend(log, (t, buf[n]), t);
    assert buf[..n + 1] == buf[..n] + [buf[n]];
  }

  lemma PopKeepsInv(u: Uart, t: Tid, z: Sizes)
    requires Inv(u, z) && u.PcOf(t).ReadPop? && u.line.rx != []
    ensures Inv(AfterPop(u, t, u.PcOf(t).length, u.PcOf(t).got), z)
  {
    var pc := u.PcOf(t);
    var u' := AfterPop(u, t, pc.length, pc.got);
    var b := u.line.rx[0];
    assert ThreadAccounted(u, t, z);
    forall x: Tid ensures Of(u'.delivered, x) == Of(u.delivered, x) + if x == t then [b] else [] {
      OfAppend(u.delivered, (t, b), x);
    }
    OthersAccounted(u, u', t, z);
    PoppedConserved(u, t, z);
    StaysInside(u, u', t);
  }

  lemma PoppedConserved(u: Uart, t: Tid, z: Sizes)
    requires StreamsConserved(u, z) && u.PcOf(t).ReadPop? && u.line.rx != []
    ensures StreamsConserved(AfterPop(u, t, u.PcOf(t).length, u.PcOf(t).got), z)
  {
    OfAppend(u.delivered, (t, u.line.rx[0]), t);
    assert Bytes(u.delivered) + [u.line.rx[0]] + u.line.rx[1..] == Bytes(u.delivered) + u.line.rx;
  }

  lemma KickKeepsInv(u: Uart, t: Tid, count: nat, incoming: seq<Byte>, z: Sizes)
    requires Inv(u, z) && z.Valid() && (u.PcOf(t).WriteKick? || u.PcOf(t).ReadKick?) && ThreadAccounted(u, t, z)
    requires count <= |u.line.tx| && |u.line.rx| + |incoming| <= z.rx
    ensures Inv(RunThread(u, t, true, count, incoming, z), z)
  {
    var pc := u.PcOf(t);
    if pc.WriteKick? {
      TxKickKeepsInv(u, t, WriteRound(pc.buf, pc.n), count, z);
    } else {
      RxKickKeepsInv(u, t, ReadReturn(pc.got), incoming, z);
    }
  }

  lemma TxKickKeepsInv(u: Uart, t: Tid, pc: Pc, count: nat, z: Sizes)
    requires Inv(u, z) && z.Valid() && ThreadAccounted(u, t, z)
    requires u.PcOf(t).WriteKick? && pc == WriteRound(u.PcOf(t).buf, u.PcOf(t).n) && count <= |u.line.tx|
    ensures Inv(u.Goto(t, pc).(line := TxKick(u.line, count)), z)
  {
    var u' := u.Goto(t, pc).(line := TxKick(u.line, count));
    assert u.PcOf(t).HoldsMutex();
    TxIrqConserves(u.line, count);
    OthersAccounted(u, u', t, z);
    StaysInside(u, u', t);
  }

  lemma RxKickKeepsInv(u: Uart, t: Tid, pc: Pc, incoming: seq<Byte>, z: Sizes)
    requires Inv(u, z) && z.Valid() && ThreadAccounted(u, t, z)
    requires u.PcOf(t).ReadKick? && pc == ReadReturn(u.PcOf(t).got) && |u.line.rx| + |incoming| <= z.rx
    ensures Inv(u.Goto(t, pc).(line := RxKick(u.line, incoming, z.rx)), z)
  {
    var u' := u.Goto(t, pc).(line := RxKick(u.line, incoming, z.rx));
    assert u.PcOf(t).HoldsMutex();
    assert Bytes(u.delivered) + (u.line.rx + incoming) == u.line.received + incoming;
    OthersAccounted(u, u', t, z);
    StaysInside(u, u', t);
  }

  /** A call that returns moves its bytes from the current call to the finished ones. */
  lemma ReturnKeepsInv(u: Uart, t: Tid, blocking: bool, z: Sizes)
    requires Inv(u, z) && z.Valid()
    requires u.PcOf(t).WriteRound? || u.PcOf(t).ReadReturn?
    requires RunThread(u, t, blocking, 0, [], z).PcOf(t).Idle?
    ensures Inv(RunThread(u, t, blocking, 0, [], z), z)
  {
    var u' := RunThread(u, t, blocking, 0, [], z);
    OthersAccounted(u, u', t, z);
    ReturnAccounted(u, t, blocking, z);
    assert forall x: Tid :: x != t ==> u'.PcOf(x) == u.PcOf(x);
  }

  lemma ReturnAccounted(u: Uart, t: Tid, blocking: bool, z: Sizes)
    requires z.Valid() && ThreadAccounted(u, t, z)
    requires u.PcOf(t).WriteRound? || u.PcOf(t).ReadReturn?
    requires RunThread(u, t, blocking, 0, [], z).PcOf(t).Idle?
    ensures ThreadAccounted(RunThread(u, t, blocking, 0, [], z), t, z)
  {
  }

  lemma RunKeepsInv(u: Uart, t: Tid, blocking: bool, count: nat, incoming: seq<Byte>, z: Sizes)
    requires Inv(u, z) && z.Valid() && Enabled(u, Run(t, blocking, count, incoming), z)
    ensures Inv(RunThread(u, t, blocking, count, incoming, z), z)
  {
    var pc := u.PcOf(t);
    var u' := RunThread(u, t, blocking, count, incoming, z);
    assert ThreadAccounted(u, t, z);
    if pc.WritePush? {
      PushKeepsInv(u, t, z);
    } else if pc.ReadPop? {
      PopKeepsInv(u, t, z);
    } else if pc.WriteKick? || pc.ReadKick? {
      KickKeepsInv(u, t, count, incoming, z);
    } else if (pc.WriteRound? || pc.ReadReturn?) && u'.PcOf(t).Idle? {
      ReturnKeepsInv(u, t, blocking, z);
    } else if pc.WriteLock? || pc.WriteRound? || pc.WriteSleep? || pc.WriteRecheck? || pc.WriteTest? {
      WriteMoveKeepsInv(u, t, blocking, z);
    } else {
      ReadMoveKeepsInv(u, t, blocking, z);
    }
  }

  lemma WriteMoveKeepsInv(u: Uart, t: Tid, blocking: bool, z: Sizes)
    requires Inv(u, z) && z.Valid() && (u.PcOf(t).HoldsMutex() || u.mutex.None?)
    requires var pc := u.PcOf(t);
      pc.WriteLock? || pc.WriteRound? || pc.WriteSleep? || pc.WriteRecheck? || pc.WriteTest?
    requires u.PcOf(t).WriteRound? ==> !RunThread(u, t, blocking, 0, [], z).PcOf(t).Idle?
    ensures Inv(RunThread(u, t, blocking, 0, [], z), z)
  {
    assert ThreadAccounted(u, t, z);
    assert u.PcOf(t).HoldsMutex() <==> u.mutex == Some(t);
    MoveKeepsInv(u, t, RunThread(u, t, blocking, 0, [], z).PcOf(t), z);
  }

  lemma ReadMoveKeepsInv(u: Uart, t: Tid, blocking: bool, z: Sizes)
    requires Inv(u, z) && z.Valid() && (u.PcOf(t).HoldsMutex() || u.mutex.None?)
    requires var pc := u.PcOf(t);
      pc.ReadLock? || pc.ReadCheck? || pc.ReadSleep? || pc.ReadTest? || pc.SyncLock? || pc.SyncCheck? || pc.SyncSleep?
    ensures Inv(RunThread(u, t, blocking, 0, [], z), z)
  {
    assert u.PcOf(t).HoldsMutex() <==> u.mutex == Some(t);
    MoveKeepsInv(u, t, RunThread(u, t, blocking, 0, [], z).PcOf(t), z);
  }

  lemma NextKeepsInv(u: Uart, s: Step, z: Sizes)
    requires Inv(u, z) && z.Valid() && Enabled(u, s, z)
    ensures Inv(Next(u, s, z), z)
  {
    match s
    case StartWrite(t, buf) => MoveKeepsInv(u, t, WriteLock(buf), z);
    case StartRead(t, length) => MoveKeepsInv(u, t, ReadLock(length), z);
    case StartSync(t) => MoveKeepsInv(u, t, SyncLock, z);
    case Run(t, blocking, count, incoming) => RunKeepsInv(u, t, blocking, count, incoming, z);
    case TxInterrupt(count) => TxInterruptKeepsInv(u, count, z);
    case RxInterrupt(incoming) => RxInterruptKeepsInv(u, incoming, z);
  }

  // ---------------------------------------------------------------- whole runs

  ghost predicate Possible(u: Uart, steps: seq<Step>, z: Sizes)
    requires z.Valid()
    decreases |steps|
  {
    steps != [] ==> Enabled(u, steps[0], z) && Possible(Next(u, steps[0], z), steps[1..], z)
  }

  function After(u: Uart, steps: seq<Step>, z: Sizes): Uart
    requires z.Valid() && Possible(u, steps, z)
    decreases |steps|
  {
    if steps == [] then u else After(Next(u, steps[0], z), steps[1..], z)
  }

  /** Under every interleaving of threads and interrupts: the bytes sent, followed by those still
      buffered, are those the writers were told were accepted, in order; the bytes the readers
      got, followed by those still buffered, are those taken from the hardware; nothing is
      overwritten; and the interrupt flags match the buffers. */
  lemma {:induction false} AllInterleavings(u: Uart, steps: seq<Step>, z: Sizes)
    requires z.Valid() && Inv(u, z) && Possible(u, steps, z)
    ensures Inv(After(u, steps, z), z)
    decreases |steps|
  {
    if steps != [] {
      NextKeepsInv(u, steps[0], z);
      AllInterleavings(Next(u, steps[0], z), steps[1..], z);
    }
  }

  /** With one writer and no call in progress, what was sent and what is buffered is exactly the
      concatenation of what its calls reported. */
  lemma SoleWriterStream(u: Uart, t: Tid, z: Sizes)
    requires Inv(u, z) && u.PcOf(t).Idle?
    requires forall i :: 0 <= i < |u.accepted| ==> u.accepted[i].0 == t
    ensures u.line.sent + u.line.tx == u.WrittenBy(t)
  {
    assert ThreadAccounted(u, t, z);
    OfSole(u.accepted, t);
  }

  lemma {:induction false} OfSole(log: seq<(Tid, Byte)>, t: Tid)
    requires forall i :: 0 <= i < |log| ==> log[i].0 == t
    ensures Of(log, t) == Bytes(log)
  {
    if log != [] {
      OfSole(log[..|log| - 1], t);
      assert Bytes(log) == Bytes(log[..|log| - 1]) + [log[|log| - 1].1];
    }
  }

  /** No writer waits for ever on a full buffer with its interrupt off: outside the window of another
      writer the transmit interrupt is enabled, and when nobody is inside the mutex one byte of
      progress lets the writer on. */
  lemma SleepingWriterHasInterrupt(u: Uart, t: Tid, z: Sizes)
    requires Inv(u, z) && z.Valid() && u.PcOf(t).WriteSleep? && |u.line.tx| == z.tx
    ensures !OwnerInTxWindow(u) ==> Enabled(u, TxInterrupt(1), z)
    ensures u.mutex.None? ==>
      var u' := Next(u, TxInterrupt(1), z);
      && Enabled(u', Run(t, true, 0, []), z)
      && Enabled(Next(u', Run(t, true, 0, []), z), Run(t, true, 0, []), z)
      && Next(Next(u', Run(t, true, 0, []), z), Run(t, true, 0, []), z).PcOf(t).WriteTest?
  {
  }

  lemma SleepingReaderHasInterrupt(u: Uart, t: Tid, b: Byte, z: Sizes)
    requires Inv(u, z) && z.Valid() && u.PcOf(t).ReadSleep? && u.line.rx == []
    ensures !OwnerInRxWindow(u) ==> Enabled(u, RxInterrupt([b]), z)
    ensures u.mutex.None? ==>
      var u' := Next(u, RxInterrupt([b]), z);
      && Enabled(u', Run(t, true, 0, []), z)
      && Enabled(Next(u', Run(t, true, 0, []), z), Run(t, true, 0, []), z)
      && Next(Next(u', Run(t, true, 0, []), z), Run(t, true, 0, []), z).PcOf(t).ReadTest?
  {
  }

  /** `sync` returns only when everything accepted so far has gone to the hardware. */
  lemma SyncMeansSent(u: Uart, t: Tid, blocking: bool, z: Sizes)
    requires Inv(u, z) && z.Valid() && u.PcOf(t).SyncCheck?
    ensures RunThread(u, t, blocking, 0, [], z).PcOf(t).Idle? <==> u.line.sent == Bytes(u.accepted)
  {
    assert |u.line.sent + u.line.tx| == |u.line.sent| + |u.line.tx|;
    assert u.line.tx == [] ==> u.line.sent + u.line.tx == u.line.sent;
  }
}
