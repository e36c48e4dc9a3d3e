/** Who keeps the system out of deep sleep: the global lock counter against the Tickers, Timers,
    serial interrupts and `DeepSleepLock`s that hold it. */
module SleepLocks {
  const USHRT_MAX: nat := 65535

  datatype IrqType = RxIrq | TxIrq

  /** What can hold the lock. */
  datatype Holder =
    | Ticker(id: nat)
    | Timer(id: nat)
    | Serial(id: nat, irq: IrqType)
    | Lock(id: nat)

  /** The fields that say whether an object holds the lock. `active` is a non-null Ticker callback, a
      running Timer or an attached serial interrupt, `locks` is `_lock_deepsleep`; a
      `DeepSleepLock` has its nesting count. */
  datatype Claim = Flag(active: bool, locks: bool) | Nested(count: nat) {
    predicate Holds() {
      if Flag? then active && locks else count != 0
    }
  }

  /** What a call leaves behind: the counter and the object's own fields, unless `error()` halted the
      system. */
  datatype Outcome = Halted | Left(lock: nat, claim: Claim)

  /** `sleep_manager_lock_deep_sleep`. */
  function Locked(lock: nat, c: Claim): Outcome {
    if lock == USHRT_MAX then Halted else Left(lock + 1, c)
  }

  /** `sleep_manager_unlock_deep_sleep`. */
  function Unlocked(lock: nat, c: Claim): Outcome {
    if lock == 0 then Halted else Left(lock - 1, c)
  }

  function LockedIf(needed: bool, lock: nat, c: Claim): Outcome {
    if needed then Locked(lock, c) else Left(lock, c)
  }

  function UnlockedIf(needed: bool, lock: nat, c: Claim): Outcome {
    if needed then Unlocked(lock, c) else Left(lock, c)
  }

  /** `Ticker::attach_us`; `callback` says that its argument is not null. */
  function AttachTicker(lock: nat, c: Claim, callback: bool): Outcome
    requires c.Flag?
  {
    LockedIf(!c.active && c.locks, lock, c.(active := callback))
  }

  /** `Ticker::detach`. */
  function DetachTicker(lock: nat, c: Claim): Outcome
    requires c.Flag?
  {
    UnlockedIf(c.active && c.locks, lock, c.(active := false))
  }

  /** `Timer::start`. */
  function StartTimer(lock: nat, c: Claim): Outcome
    requires c.Flag?
  {
    if c.active then Left(lock, c) else LockedIf(c.locks, lock, c.(active := true))
  }

  /** `Timer::stop`. */
  function StopTimer(lock: nat, c: Claim): Outcome
    requires c.Flag?
  {
    UnlockedIf(c.active && c.locks, lock, c.(active := false))
  }

  /** `SerialBase::attach`, for one interrupt type. */
  function AttachIrq(lock: nat, c: Claim, callback: bool): Outcome
    requires c.Flag?
  {
    if callback then LockedIf(!c.active, lock, c.(active := true))
    else UnlockedIf(c.active, lock, c.(active := false))
  }

  /** `DeepSleepLock::lock` on its 16-bit count. */
  function LockNested(lock: nat, c: Claim): Outcome
    requires c.Nested? && c.count <= USHRT_MAX
  {
    if c.count == USHRT_MAX then Halted else LockedIf(c.count == 0, lock, Nested(c.count + 1))
  }

  /** `DeepSleepLock::unlock`. */
  function UnlockNested(lock: nat, c: Claim): Outcome
    requires c.Nested? && c.count <= USHRT_MAX
  {
    if c.count == 0 then Halted else UnlockedIf(c.count == 1, lock, Nested(c.count - 1))
  }

  /** The destructor of a `DeepSleepLock`. */
  function Release(lock: nat, c: Claim): Outcome
    requires c.Nested?
  {
    UnlockedIf(c.count != 0, lock, Nested(0))
  }

  // ---------------------------------------------------------------- many objects, whole runs

  datatype Sleep = Sleep(lock: nat, claims: map<Holder, Claim>, halted: bool) {
    function ClaimOf(h: Holder): Claim {
      if h in claims then claims[h] else if h.Lock? then Nested(0) else Flag(false, true)
    }

    predicate CanDeepSleep() {
      lock == 0
    }
  }

  /** A call on one object; `locks` is false for an object on the low-power ticker. */
  datatype Call =
    | Create(h: Holder, locks: bool)
    | Acquire(h: Holder, callback: bool)
    | Drop(h: Holder)
    | Destroy(h: Holder)

  function Result(s: Sleep, call: Call): Outcome
    requires Typed(s)
  {
    var c := s.ClaimOf(call.h);
    match call
    case Create(h, locks) =>
      if c.Holds() then Left(s.lock, c)
      else if h.Lock? then Locked(s.lock, Nested(1))
      else Left(s.lock, Flag(false, h.Serial? || locks))
    case Acquire(h, callback) =>
      (match h
       case Ticker(_) => AttachTicker(s.lock, c, callback)
       case Timer(_) => StartTimer(s.lock, c)
       case Serial(_, _) => AttachIrq(s.lock, c, callback)
       case Lock(_) => LockNested(s.lock, c))
    case Drop(h) =>
      (match h
       case Ticker(_) => DetachTicker(s.lock, c)
       case Timer(_) => StopTimer(s.lock, c)
       case Serial(_, _) => AttachIrq(s.lock, c, false)
       case Lock(_) => UnlockNested(s.lock, c))
    case Destroy(h) =>
      (match h
       case Ticker(_) => DetachTicker(s.lock, c)
       case Timer(_) => StopTimer(s.lock, c)
       case Serial(_, _) => AttachIrq(s.lock, c, false)
       case Lock(_) => Release(s.lock, c))
  }

  function Next(s: Sleep, call: Call): (s': Sleep)
    requires Typed(s)
    ensures Typed(s')
  {
    if s.halted then s
    else
      match Result(s, call)
      case Halted => s.(halted := true)
      case Left(lock, claim) => s.(lock := lock, claims := s.claims[call.h := claim])
  }

  predicate FitsHolder(h: Holder, c: Claim) {
    && (h.Lock? <==> c.Nested?)
    && (h.Lock? ==> c.count <= USHRT_MAX)
    && (h.Serial? ==> c.locks)
  }

  predicate Typed(s: Sleep) {
    forall h :: h in s.claims ==> FitsHolder(h, s.claims[h])
  }

  /** The objects that hold the lock now. */
  function Holding(s: Sleep): set<Holder> {
    set h | h in s.claims && s.claims[h].Holds()
  }

  /** The counter counts the holders. */
  ghost predicate Accounted(s: Sleep) {
    Typed(s) && s.lock <= USHRT_MAX && (!s.halted ==> s.lock == |Holding(s)|)
  }

  /** A null callback must not be attached to a Ticker: the lock taken, or kept, is never given
      back. */
  predicate Balanced(s: Sleep, call: Call) {
    call.Acquire? && call.h.Ticker? && s.ClaimOf(call.h).Flag? && s.ClaimOf(call.h).locks ==> call.callback
  }

  function Surplus(s: Sleep, call: Call): nat {
    if Balanced(s, call) then 0 else 1
  }

  lemma HoldingAfter(s: Sleep, h: Holder, c: Claim)
    ensures var held := Holding(s.(claims := s.claims[h := c]));
      && held == (if c.Holds() then Holding(s) + {h} else Holding(s) - {h})
      && |held| == |Holding(s)| + (if c.Holds() && h !in Holding(s) then 1 else 0)
                                - (if !c.Holds() && h in Holding(s) then 1 else 0)
  {
    var held := Holding(s.(claims := s.claims[h := c]));
    assert held == if c.Holds() then Holding(s) + {h} else Holding(s) - {h};
  }

  /** The counter moves with the object's claim, and by one more when the call is not balanced. */
  lemma ResultFollowsClaim(s: Sleep, call: Call)
    requires Typed(s) && Result(s, call).Left?
    ensures var before, after := s.ClaimOf(call.h), Result(s, call).claim;
      Result(s, call).lock ==
        s.lock + (if after.Holds() then 1 else 0) - (if before.Holds() then 1 else 0) + Surplus(s, call)
  {
  }

  /** Only one holder too many, or a misused `DeepSleepLock`, halts the system. */
  lemma WhenHalted(s: Sleep, call: Call)
    requires Typed(s) && Result(s, call).Halted? && (s.ClaimOf(call.h).Holds() ==> s.lock > 0)
    ensures s.lock == USHRT_MAX ||
      (call.h.Lock? && s.ClaimOf(call.h).count == if call.Acquire? then USHRT_MAX else 0)
  {
  }

  /** A call keeps the account if and only if it is balanced, and never makes the count underflow. */
  lemma CallKeepsAccount(s: Sleep, call: Call)
    requires Accounted(s) && !s.halted
    ensures Next(s, call).halted ==>
      |Holding(s)| == USHRT_MAX || (call.h.Lock? && s.ClaimOf(call.h).count == if call.Acquire? then USHRT_MAX else 0)
    ensures Next(s, call).halted ==> Accounted(Next(s, call))
    ensures !Next(s, call).halted ==> (Accounted(Next(s, call)) <==> Balanced(s, call))
  {
    var c := s.ClaimOf(call.h);
    assert call.h in Holding(s) <==> c.Holds();
    if Result(s, call).Left? {
      ResultFollowsClaim(s, call);
      HoldingAfter(s, call.h, Result(s, call).claim);
    } else {
      assert c.Holds() ==> |Holding(s)| > 0;
      WhenHalted(s, call);
    }
  }

  /** How many calls of the run attach a null callback to a locking Ticker. */
  function Unbalanced(s: Sleep, calls: seq<Call>): nat
    requires Typed(s)
    decreases |calls|
  {
    if calls == [] || s.halted then 0 else Surplus(s, calls[0]) + Unbalanced(Next(s, calls[0]), calls[1..])
  }

  function After(s: Sleep, calls: seq<Call>): (r: Sleep)
    requires Typed(s)
    ensures Typed(r)
    decreases |calls|
  {
    if calls == [] then s else After(Next(s, calls[0]), calls[1..])
  }

  /** The counter exceeds the number of holders by `leak`. */
  ghost predicate Leaks(s: Sleep, leak: nat) {
    Typed(s) && (!s.halted ==> s.lock == |Holding(s)| + leak)
  }

  lemma CallLeaks(s: Sleep, call: Call, leak: nat)
    requires Leaks(s, leak) && !s.halted
    ensures Leaks(Next(s, call), leak + Surplus(s, call))
  {
    assert call.h in Holding(s) <==> s.ClaimOf(call.h).Holds();
    if Result(s, call).Left? {
      ResultFollowsClaim(s, call);
      HoldingAfter(s, call.h, Result(s, call).claim);
    }
  }

  /** Along any run each unbalanced call adds one to the surplus of the counter, and no call ever takes
      it back. */
  lemma {:induction false} RunLeaks(s: Sleep, calls: seq<Call>, leak: nat)
    requires Leaks(s, leak)
    ensures Leaks(After(s, calls), leak + Unbalanced(s, calls))
    decreases |calls|
  {
    if calls != [] {
      if s.halted {
        StaysHalted(s, calls);
      } else {
        CallLeaks(s, calls[0], leak);
        RunLeaks(Next(s, calls[0]), calls[1..], leak + Surplus(s, calls[0]));
      }
    }
  }

  lemma {:induction false} StaysHalted(s: Sleep, calls: seq<Call>)
    requires Typed(s) && s.halted
    ensures After(s, calls) == s
    decreases |calls|
  {
    if calls != [] {
      StaysHalted(s, calls[1..]);
    }
  }

  /** Over any run of calls on any number of objects, as long as the system has not halted, the lock
      count is the number of holders plus the number of null callbacks attached. It is the number of
      holders, and deep sleep allowed exactly when there is none, if and only if there was no such
      call. */
  lemma LockCountsHolders(s: Sleep, calls: seq<Call>)
    requires Accounted(s) && !After(s, calls).halted && !s.halted
    ensures var r := After(s, calls);
      && r.lock == |Holding(r)| + Unbalanced(s, calls)
      && (r.lock == |Holding(r)| <==> Unbalanced(s, calls) == 0)
      && (r.CanDeepSleep() <==> Holding(r) == {} && Unbalanced(s, calls) == 0)
  {
    RunLeaks(s, calls, 0);
  }

  // ---------------------------------------------------------------- what the calls on one object come to

  /** What a call makes of an object's own fields: a new `DeepSleepLock` is locked, and no other new object
      active; then activity is decided by the last call, and a `DeepSleepLock` counts. Creating an
      object that exists and holds the lock does not happen. */
  function ClaimStep(c: Call, h: Holder, before: Claim): Claim {
    if c.h != h || (c.Create? && before.Holds()) then before
    else if c.Create? then (if h.Lock? then Nested(1) else Flag(false, h.Serial? || c.locks))
    else if before.Flag? then before.(active := c.Acquire? && (h.Timer? || c.callback))
    else if c.Acquire? then Nested(before.count + 1)
    else if c.Drop? && before.count > 0 then Nested(before.count - 1)
    else Nested(0)
  }

  function ClaimAfter(calls: seq<Call>, h: Holder, before: Claim): Claim {
    if calls == [] then before
    else ClaimStep(calls[|calls| - 1], h, ClaimAfter(calls[..|calls| - 1], h, before))
  }

  lemma {:induction false} AfterAppend(s: Sleep, calls: seq<Call>, c: Call)
    requires Typed(s)
    ensures After(s, calls + [c]) == Next(After(s, calls), c)
    decreases |calls|
  {
    if calls == [] {
      assert (calls + [c])[1..] == [];
    } else {
      assert (calls + [c])[1..] == calls[1..] + [c];
      AfterAppend(Next(s, calls[0]), calls[1..], c);
    }
  }

  /** An object holds the lock as its own calls say, whatever the others do: a Ticker from a callback
      attached to its detaching, a Timer while it runs, a serial interrupt while it is attached, a
      `DeepSleepLock` as long as it is locked more often than unlocked. */
  lemma {:induction false} ClaimFollowsCalls(s: Sleep, calls: seq<Call>, h: Holder)
    requires Typed(s) && !After(s, calls).halted
    ensures After(s, calls).ClaimOf(h) == ClaimAfter(calls, h, s.ClaimOf(h))
    decreases |calls|
  {
    if calls != [] {
      var earlier, c := calls[..|calls| - 1], calls[|calls| - 1];
      assert calls == earlier + [c];
      AfterAppend(s, earlier, c);
      ClaimFollowsCalls(s, earlier, h);
      OneCallMore(After(s, earlier), c, h);
    }
  }

  lemma OneCallMore(s: Sleep, c: Call, h: Holder)
    requires Typed(s) && !Next(s, c).halted
    ensures Next(s, c).ClaimOf(h) == ClaimStep(c, h, s.ClaimOf(h))
  {
  }

  /** So while the calls on any one object leave it holding the lock, the system does not sleep deeply. */
  lemma HeldIsAwake(s: Sleep, calls: seq<Call>, h: Holder, leak: nat)
    requires Leaks(s, leak) && !After(s, calls).halted
    requires ClaimAfter(calls, h, s.ClaimOf(h)).Holds()
    ensures h in Holding(After(s, calls)) && !After(s, calls).CanDeepSleep()
  {
    ClaimFollowsCalls(s, calls, h);
    RunLeaks(s, calls, leak);
    assert h in Holding(After(s, calls));
    assert |Holding(After(s, calls))| > 0;
  }

  /** A Ticker given a null callback and detached: nobody holds the lock, and it stays taken for ever. */
  lemma NullCallbackLeaks(id: nat, calls: seq<Call>)
    ensures var empty, attach := Sleep(0, map[], false), Acquire(Ticker(id), false);
      var r := After(empty, [attach, Drop(Ticker(id))]);
      && !r.halted && r.lock == 1 && Holding(r) == {}
      && (!After(r, calls).halted ==> !After(r, calls).CanDeepSleep())
  {
    var empty, attach, detach := Sleep(0, map[], false), Acquire(Ticker(id), false), Drop(Ticker(id));
    var s := Next(empty, attach);
    assert [attach, detach][1..] == [detach] && [detach][1..] == [];
    assert After(empty, [attach, detach]) == After(s, [detach]);
    assert After(s, [detach]) == After(Next(s, detach), []);
    var r := Next(s, detach);
    assert r.claims[Ticker(id)] == Flag(false, true);
    assert Holding(r) == {};
    RunLeaks(r, calls, 1);
  }

  // ---------------------------------------------------------------- the code

  /** The static counter. After `halted` nothing runs any more. */
  class SleepManager {
    var deepSleepLock: nat
    var halted: bool

    constructor ()
      ensures deepSleepLock == 0 && !halted
    {
      deepSleepLock, halted := 0, false;
    }

    function Left(c: Claim): Outcome
      reads this
    {
      if halted then Halted else Outcome.Left(deepSleepLock, c)
    }

    method LockDeepSleep()
      requires !halted
      modifies this
      ensures forall c :: Left(c) == Locked(old(deepSleepLock), c)
    {
      if deepSleepLock == USHRT_MAX {
        halted := true;
        return;
      }
      deepSleepLock := deepSleepLock + 1;
    }

    method UnlockDeepSleep()
      requires !halted
      modifies this
      ensures forall c :: Left(c) == Unlocked(old(deepSleepLock), c)
    {
      if deepSleepLock == 0 {
        halted := true;
        return;
      }
      deepSleepLock := deepSleepLock - 1;
    }

    method CanDeepSleep() returns (can: bool)
      ensures can <==> deepSleepLock == 0
    {
      can := deepSleepLock == 0;
    }
  }

  /** The two members of a Ticker that the lock depends on. */
  class TickerLock {
    const manager: SleepManager
    const lockDeepsleep: bool
    var callback: bool

    constructor (manager: SleepManager, lockDeepsleep: bool)
      ensures this.manager == manager && this.lockDeepsleep == lockDeepsleep && !callback
    {
      this.manager, this.lockDeepsleep, callback := manager, lockDeepsleep, false;
    }

    function View(): Claim
      reads this
    {
      Flag(callback, lockDeepsleep)
    }

    method AttachUs(func: bool)
      requires !manager.halted
      modifies this, manager
      ensures manager.Left(View()) == AttachTicker(old(manager.deepSleepLock), old(View()), func)
    {
      if !callback && lockDeepsleep {
        manager.LockDeepSleep();
      }
      callback := func;
    }

    method Detach()
      requires !manager.halted
      modifies this, manager
      ensures manager.Left(View()) == DetachTicker(old(manager.deepSleepLock), old(View()))
    {
      if callback && lockDeepsleep {
        manager.UnlockDeepSleep();
      }
      callback := false;
    }
  }

  /** The `_irq` table of a serial port. */
  class SerialIrqs {
    const manager: SleepManager
    const irq: array<bool>

    constructor (manager: SleepManager)
      ensures this.manager == manager && fresh(irq) && irq.Length == 2 && !irq[0] && !irq[1]
    {
      this.manager := manager;
      irq := new bool[2](i => false);
    }

    method Attach(func: bool, index: nat)
      requires !manager.halted && index < irq.Length
      modifies irq, manager
      ensures manager.Left(Flag(irq[index], true)) ==
        AttachIrq(old(manager.deepSleepLock), Flag(old(irq[index]), true), func)
      ensures forall i :: 0 <= i < irq.Length ==> irq[i] == if i == index then func else old(irq[i])
    {
      if func {
        if !irq[index] {
          manager.LockDeepSleep();
        }
        irq[index] := true;
      } else {
        if irq[index] {
          manager.UnlockDeepSleep();
        }
        irq[index] := false;
      }
    }

    /** The destructor detaches every type, which gives back each lock taken. */
    method Destroy()
      requires !manager.halted && irq.Length == 2
      modifies irq, manager
      ensures !irq[0] && !irq[1]
      ensures var held := (if old(irq[0]) then 1 else 0) + (if old(irq[1]) then 1 else 0);
        if held <= old(manager.deepSleepLock) then
          !manager.halted && manager.deepSleepLock == old(manager.deepSleepLock) - held
        else
          manager.halted
    {
      Attach(false, 0);
      if manager.halted {
        irq[1] := false;
        return;
      }
      Attach(false, 1);
    }
  }

  class DeepSleepLock {
    const manager: SleepManager
    var lockCount: nat

    constructor (manager: SleepManager)
      requires !manager.halted
      modifies manager
      ensures this.manager == manager
      ensures manager.Left(Nested(lockCount)) == Locked(old(manager.deepSleepLock), Nested(1))
    {
      this.manager := manager;
      lockCount := 1;
      new;
      manager.LockDeepSleep();
    }

    method Lock()
      requires !manager.halted && lockCount <= USHRT_MAX
      modifies this, manager
      ensures manager.Left(Nested(lockCount)) == LockNested(old(manager.deepSleepLock), Nested(old(lockCount)))
    {
      lockCount := (lockCount + 1) % (USHRT_MAX + 1);
      if lockCount == 1 {
        manager.LockDeepSleep();
      }
      if lockCount == 0 {
        manager.halted := true;
      }
    }

    method Unlock()
      requires !manager.halted && lockCount <= USHRT_MAX
      modifies this, manager
      ensures manager.Left(Nested(lockCount)) == UnlockNested(old(manager.deepSleepLock), Nested(old(lockCount)))
    {
      lockCount := (lockCount - 1) % (USHRT_MAX + 1);
      if lockCount == 0 {
        manager.UnlockDeepSleep();
      }
      if lockCount == USHRT_MAX {
        manager.halted := true;
      }
    }
  }
}
