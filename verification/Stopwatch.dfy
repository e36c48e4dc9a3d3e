/** `Timer`: accumulated running time under starts, stops and resets in any order. */
module Stopwatch {
  import L = SleepLocks

  datatype State = State(running: bool, start: nat, time: int) {
    /** `slicetime`. */
    function Slice(now: nat): int {
      if running then now - start else 0
    }

    /** `read_high_resolution_us`. */
    function Read(now: nat): int {
      time + Slice(now)
    }
  }

  datatype Kind = Start | Stop | Reset
  datatype Event = Event(kind: Kind, at: nat)

  function Next(s: State, e: Event): State {
    match e.kind
    case Start => if s.running then s else s.(running := true, start := e.at)
    case Stop => s.(running := false, time := s.Read(e.at))
    case Reset => s.(start := e.at, time := 0)
  }

  /** The state after the events, in a Timer made at `born`. */
  function After(born: nat, events: seq<Event>): State {
    if events == [] then State(false, born, 0) else Next(After(born, events[..|events| - 1]), events[|events| - 1])
  }

  ghost predicate Chronological(born: nat, events: seq<Event>) {
    && (forall i :: 0 <= i < |events| ==> born <= events[i].at)
    && (forall i, j :: 0 <= i < j < |events| ==> events[i].at <= events[j].at)
  }

  function Latest(born: nat, events: seq<Event>): nat {
    if events == [] then born else events[|events| - 1].at
  }

  // ---------------------------------------------------------------- an independent account

  /** Whether the Timer runs during microsecond `u`: the last start or stop up to then decides. */
  function RunsDuring(events: seq<Event>, u: nat): bool {
    if events == [] then false
    else
      var e := events[|events| - 1];
      if e.at <= u && !e.kind.Reset? then e.kind.Start? else RunsDuring(events[..|events| - 1], u)
  }

  function LastReset(born: nat, events: seq<Event>): nat {
    if events == [] then born
    else if events[|events| - 1].kind.Reset? then events[|events| - 1].at
    else LastReset(born, events[..|events| - 1])
  }

  /** How many of the microseconds in [from, until) the Timer ran for. */
  function TimeRunning(events: seq<Event>, from: nat, until: nat): nat {
    if until <= from then 0 else TimeRunning(events, from, until - 1) + if RunsDuring(events, until - 1) then 1 else 0
  }

  lemma {:induction false} SameUntil(a: seq<Event>, b: seq<Event>, from: nat, until: nat)
    requires forall u: nat :: from <= u < until ==> RunsDuring(a, u) == RunsDuring(b, u)
    ensures TimeRunning(a, from, until) == TimeRunning(b, from, until)
    decreases until
  {
    if from < until {
      SameUntil(a, b, from, until - 1);
    }
  }

  lemma {:induction false} ConstantFrom(events: seq<Event>, from: nat, mid: nat, until: nat, running: bool)
    requires from <= mid <= until && forall u: nat :: mid <= u < until ==> RunsDuring(events, u) == running
    ensures TimeRunning(events, from, until) == TimeRunning(events, from, mid) + if running then until - mid else 0
    decreases until
  {
    if mid < until {
      ConstantFrom(events, from, mid, until - 1, running);
    }
  }

  lemma {:induction false} LastResetEarlier(born: nat, events: seq<Event>)
    requires Chronological(born, events)
    ensures born <= LastReset(born, events) <= Latest(born, events)
    decreases |events|
  {
    if events != [] {
      LastResetEarlier(born, events[..|events| - 1]);
    }
  }

  lemma {:induction false} SettledRunning(born: nat, events: seq<Event>, u: nat)
    requires Chronological(born, events) && Latest(born, events) <= u
    ensures RunsDuring(events, u) == After(born, events).running
    decreases |events|
  {
    if events != [] {
      SettledRunning(born, events[..|events| - 1], u);
    }
  }

  /** A reading at any time after the last event is exactly the time spent running since the last
      reset, whatever the order of starts, stops and resets, repeated ones included. */
  lemma {:induction false} ReadingIsTimeRunning(born: nat, events: seq<Event>, now: nat)
    requires Chronological(born, events) && Latest(born, events) <= now
    ensures After(born, events).Read(now) == TimeRunning(events, LastReset(born, events), now)
    decreases |events|
  {
    if events == [] {
      SameUntil([], [], born, now);
      ConstantFrom([], born, born, now, false);
    } else {
      var earlier, e := events[..|events| - 1], events[|events| - 1];
      var reset := LastReset(born, events);
      LastResetEarlier(born, events);
      ReadingIsTimeRunning(born, earlier, e.at);
      forall u: nat | e.at <= u < now ensures RunsDuring(events, u) == After(born, events).running {
        SettledRunning(born, events, u);
      }
      ConstantFrom(events, reset, e.at, now, After(born, events).running);
      SameUntil(events, earlier, reset, e.at);
    }
  }

  // ---------------------------------------------------------------- the code

  /** `now` is what `ticker_read_us` returns during the call. A running Timer holds the deep-sleep
      lock, unless it is on the low-power ticker. */
  class Timer {
    const manager: L.SleepManager
    const lockDeepsleep: bool
    var running: bool
    var start: nat
    var time: nat

    constructor (manager: L.SleepManager, lockDeepsleep: bool, now: nat)
      ensures this.manager == manager && this.lockDeepsleep == lockDeepsleep && View() == After(now, [])
    {
      this.manager, this.lockDeepsleep := manager, lockDeepsleep;
      running, start, time := false, now, 0;
    }

    function View(): State
      reads this
    {
      State(running, start, time)
    }

    function Claimed(): L.Claim
      reads this
    {
      L.Flag(running, lockDeepsleep)
    }

    method Start(now: nat)
      requires !manager.halted
      modifies this, manager
      ensures View() == Next(old(View()), Event(Kind.Start, now))
      ensures manager.Left(Claimed()) == L.StartTimer(old(manager.deepSleepLock), old(Claimed()))
    {
      if !running {
        if lockDeepsleep {
          manager.LockDeepSleep();
        }
        start := now;
        running := true;
      }
    }

    method Stop(now: nat)
      requires !manager.halted && (running ==> start <= now)
      modifies this, manager
      ensures View() == Next(old(View()), Event(Kind.Stop, now))
      ensures manager.Left(Claimed()) == L.StopTimer(old(manager.deepSleepLock), old(Claimed()))
    {
      var slice := SliceTime(now);
      time := time + slice;
      if running {
        if lockDeepsleep {
          manager.UnlockDeepSleep();
        }
      }
      running := false;
    }

    method Reset(now: nat)
      modifies this
      ensures View() == Next(old(View()), Event(Kind.Reset, now)) && Claimed() == old(Claimed())
    {
      start := now;
      time := 0;
    }

    method SliceTime(now: nat) returns (us: nat)
      requires running ==> start <= now
      ensures us == View().Slice(now)
    {
      us := 0;
      if running {
        us := now - start;
      }
    }

    method ReadHighResolutionUs(now: nat) returns (us: nat)
      requires running ==> start <= now
      ensures us == View().Read(now)
    {
      var slice := SliceTime(now);
      us := time + slice;
    }
  }
}
