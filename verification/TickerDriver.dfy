/** The ticker code itself: a queue object whose fields are updated in place, an intrusive linked
    list of events, and the interrupt handler, over a hardware counter that may show any
    readings a monotone clock can. */
module TickerDriver {
  import opened Prelude
  import opened TickerClock
  import opened EventQueue
  import Runs = TickerRuns
  import opened PeriodicTickers

  /** `ticker_interface_t`. `tickAt(n)` is the true tick of the n-th access, any monotone
      function; `lastTick` bounds the run under observation. */
  class Hardware {
    const frequency: nat
    const bits: nat
    const firesOnEqual: bool
    const tickAt: nat -> nat
    ghost const lastTick: nat
    var accesses: nat
    var matchTick: nat
    var fired: bool

    constructor (frequency: nat, bits: nat, firesOnEqual: bool, tickAt: nat -> nat, ghost lastTick: nat)
      requires frequency < TWO_32
      requires forall i: nat, j: nat :: i <= j ==> tickAt(i) <= tickAt(j)
      requires forall i: nat :: tickAt(i) <= lastTick
      ensures Valid() && accesses == 0
    {
      this.frequency, this.bits, this.firesOnEqual := frequency, bits, firesOnEqual;
      this.tickAt, this.lastTick := tickAt, lastTick;
      accesses, matchTick, fired := 0, 0, false;
    }

    ghost predicate Valid() {
      && frequency < TWO_32
      && (forall i: nat, j: nat :: i <= j ==> tickAt(i) <= tickAt(j))
      && (forall i: nat :: tickAt(i) <= lastTick)
    }

    /** The true tick of the latest access. */
    function Now(): nat
      reads this`accesses
    {
      tickAt(accesses)
    }

    method Read() returns (reading: nat)
      modifies this`accesses
      ensures accesses == old(accesses) + 1
      ensures 4 <= bits <= 32 ==> reading == Now() % Pow2(bits)
      ensures reading == Now() % Pow2(UsableBits(bits))
    {
      accesses := accesses + 1;
      reading := Now() % Pow2(UsableBits(bits));
    }

    method SetInterrupt(tick: nat)
      modifies this`accesses, this`matchTick
      ensures accesses == old(accesses) + 1 && matchTick == tick
    {
      accesses, matchTick := accesses + 1, tick;
    }

    method FireInterrupt()
      modifies this`accesses, this`fired
      ensures accesses == old(accesses) + 1 && fired
    {
      accesses, fired := accesses + 1, true;
    }

    method ClearInterrupt()
      modifies this`fired
      ensures !fired
    {
      fired := false;
    }
  }

  /** A Ticker (`repeats`) or a Timeout, with its embedded `ticker_event_t`: the event's `id` is
      the address of this object. */
  class TimerEvent {
    const repeats: bool
    var timestamp: nat
    var next: TimerEvent?
    var delay: nat

    constructor (repeats: bool)
      ensures this.repeats == repeats
    {
      this.repeats, timestamp, next, delay := repeats, 0, null, 0;
    }
  }

  /** What a callback does with a Ticker or Timeout, its own or another one. */
  datatype Command = Arm(obj: TimerEvent, period: nat) | Disarm(obj: TimerEvent) {
    function Act(): Event<TimerEvent> {
      match this
      case Arm(obj, period) => Event.Attach(obj, period, obj.repeats)
      case Disarm(obj) => Event.Detach(obj)
    }
  }

  function Script(commands: seq<Command>): seq<Event<TimerEvent>> {
    seq(|commands|, i requires 0 <= i < |commands| => commands[i].Act())
  }

  /** The events of a run apart from the passing of time. */
  function Acts(events: seq<Event<TimerEvent>>): seq<Event<TimerEvent>> {
    if events == [] then []
    else
      var acts, last := Acts(events[..|events| - 1]), events[|events| - 1];
      if last.Advance? then acts else acts + [last]
  }

  /** The dispatches numbered `from` up to `upTo`, each followed by what its callback does. */
  function Dispatches(callback: nat -> seq<Command>, from: nat, upTo: nat): seq<Event<TimerEvent>> {
    if upTo <= from then [] else Dispatches(callback, from, upTo - 1) + [Fire] + Script(callback(upTo - 1))
  }

  lemma OneDispatchMore(callback: nat -> seq<Command>, from: nat, n: nat)
    requires from <= n
    ensures Dispatches(callback, from, n + 1) == Dispatches(callback, from, n) + [Fire] + Script(callback(n))
  {
  }

  /** `callback(n)` is what the function called by the n-th dispatch does. */
  class TickerQueue {
    const hw: Hardware
    const callback: nat -> seq<Command>
    var callbacks: nat
    var head: TimerEvent?
    var frequency: nat
    var bits: nat
    var maxDelta: nat
    var maxDeltaUs: nat
    var tickLastRead: nat
    var tickRemainder: nat
    var presentTime: nat

    /** What the linked list and the clock stand for. */
    ghost var sys: System<TimerEvent>
    /** The hardware accesses since `initialize`, and the run they make up. */
    ghost const origin: Runs.Run
    /** The objects that callbacks attach and detach. */
    ghost const timers: set<TimerEvent>
    ghost var trace: seq<Runs.Access>

    function ClockView(): Clock
      reads this`frequency, this`bits, this`maxDelta, this`maxDeltaUs
      reads this`tickLastRead, this`tickRemainder, this`presentTime
    {
      Clock(frequency, bits, maxDelta, maxDeltaUs, tickLastRead, tickRemainder, presentTime)
    }

    ghost function Run(): Runs.Run
      requires origin.clock.frequency > 0
      reads this`trace
    {
      Runs.After(origin, trace, hw.firesOnEqual)
    }

    ghost predicate ClockValid()
      reads this`frequency, this`bits, this`maxDelta, this`maxDeltaUs
      reads this`tickLastRead, this`tickRemainder, this`presentTime
      reads this`trace, hw`accesses
    {
      && hw.Valid() && bits == UsableBits(hw.bits) && frequency == UsableFrequency(hw.frequency)
      && origin.clock.frequency > 0
      && Runs.Sound(origin, trace, hw.firesOnEqual, hw.lastTick)
      && Run().clock == ClockView()
      && Run().last <= hw.Now()
    }

    /** The `i`-th object of the list holds its timestamp and points to the next one. */
    static ghost predicate LinkedAt(q: seq<Entry<TimerEvent>>, i: nat)
      requires i < |q|
      reads q[i].id
    {
      && q[i].id.timestamp == q[i].timestamp
      && q[i].id.next == if i + 1 < |q| then q[i + 1].id else null
    }

    static ghost predicate Linked(q: seq<Entry<TimerEvent>>, first: TimerEvent?)
      reads Nodes(q)
    {
      && first == (if q == [] then null else q[0].id)
      && forall i :: 0 <= i < |q| ==> LinkedAt(q, i)
    }

    static ghost function Nodes(q: seq<Entry<TimerEvent>>): set<TimerEvent> {
      set e | e in q :: e.id
    }

    /** The linked list from `first` represents `q`, and every object in it is attached. */
    static ghost predicate ListValid(q: seq<Entry<TimerEvent>>, serial: nat, timings: map<TimerEvent, Timing>,
                                     first: TimerEvent?)
      reads Nodes(q), timings.Keys
    {
      && WellQueued(q, serial)
      && Nodes(q) <= timings.Keys
      && Linked(q, first)
      && (forall id :: id in timings ==> timings[id].period == id.delay && timings[id].repeats == id.repeats)
    }

    ghost predicate Valid()
      reads this`frequency, this`bits, this`maxDelta, this`maxDeltaUs
      reads this`tickLastRead, this`tickRemainder, this`presentTime
      reads this`trace, this`head, this`sys, hw`accesses, Nodes(sys.queue), sys.timings.Keys
    {
      ClockValid() && sys.now == presentTime && ListValid(sys.queue, sys.serial, sys.timings, head)
    }

    /** `initialize`. */
    constructor (hw: Hardware, callback: nat -> seq<Command>, ghost timers: set<TimerEvent>)
      requires hw.Valid()
      requires MICROS * hw.lastTick / UsableFrequency(hw.frequency) < TWO_64
      modifies hw
      ensures (hw.frequency > 0 ==> frequency == hw.frequency) && (4 <= hw.bits <= 32 ==> bits == hw.bits)
      ensures this.hw == hw && this.callback == callback && this.timers == timers && callbacks == 0 && Valid()
      ensures sys == System(presentTime, [], 0, map[])
      ensures origin.due == origin.last && |trace| == 3
      ensures trace[0].Sync? && trace[1].Sync? && trace[2].Program? && trace[2].head.None?
      ensures Armed()
    {
      var reading := hw.Read();
      var c := Started(hw.frequency, hw.bits, reading);
      this.hw, this.callback, this.timers, callbacks, head := hw, callback, timers, 0, null;
      frequency, bits, maxDelta, maxDeltaUs := c.frequency, c.bits, c.maxDelta, c.maxDeltaUs;
      tickLastRead, tickRemainder, presentTime := reading, 0, 0;
      sys := System(0, [], 0, map[]);
      origin := Runs.Run(c, hw.Now(), hw.Now());
      trace := [];
      new;
      Runs.StartedTracks(hw.frequency, hw.bits, hw.Now());
      Settle();
    }

    /** The end of `initialize`. */
    method Settle()
      requires Valid() && sys.queue == []
      modifies this`tickLastRead, this`tickRemainder, this`presentTime, this`sys, this`trace
      modifies hw`accesses, hw`matchTick, hw`fired
      ensures Valid() && sys == old(sys).(now := presentTime) && Armed()
      ensures |trace| == |old(trace)| + 3 && old(trace) <= trace
      ensures var added := trace[|old(trace)|..];
        added[0].Sync? && added[1].Sync? && added[2].Program? && added[2].head.None?
    {
      UpdatePresentTime();
      var _, _, _ := ScheduleInterrupt();
    }

    /** If no reading came too late, `presentTime` is the whole number of microseconds since
        `initialize`, at the frequency of the hardware. */
    lemma TimeIsExact()
      requires ClockValid()
      requires Runs.Timely(origin, trace, hw.firesOnEqual) && Runs.AllReachable(origin, trace, hw.firesOnEqual)
      ensures origin.last <= Run().last
      ensures hw.frequency > 0 ==> presentTime == 1_000_000 * (Run().last - origin.last) / hw.frequency
      ensures presentTime == MICROS * (Run().last - origin.last) / frequency
    {
      ClockFacts();
      Runs.TimelyIsExact(origin, trace, hw.firesOnEqual, hw.lastTick);
    }

    lemma ClockFacts()
      requires ClockValid()
      ensures tickRemainder < frequency < TWO_32 && 4 <= bits <= 32 && presentTime < TWO_64
      ensures presentTime <= Runs.Horizon(origin, hw.lastTick) < TWO_64
      ensures frequency == origin.clock.frequency && hw.Now() <= hw.lastTick
      ensures (hw.frequency > 0 ==> frequency == hw.frequency) && (4 <= hw.bits <= 32 ==> bits == hw.bits)
    {
      Runs.SoundIsSane(origin, trace, hw.firesOnEqual, hw.lastTick);
    }

    /** `update_present_time`. */
    method UpdatePresentTime()
      requires Valid()
      modifies this`tickLastRead, this`tickRemainder, this`presentTime, this`sys, this`trace, hw`accesses
      ensures Valid()
      ensures sys == old(sys).(now := presentTime) && old(sys.now) <= sys.now
      ensures trace == old(trace) + [Runs.Sync(hw.Now())]
    {
      SyncClock();
    }

    method SyncClock()
      requires ClockValid() && sys.now == presentTime
      modifies this`tickLastRead, this`tickRemainder, this`presentTime, this`sys, this`trace, hw`accesses
      ensures ClockValid()
      ensures sys == old(sys).(now := presentTime) && old(sys.now) <= sys.now
      ensures trace == old(trace) + [Runs.Sync(hw.Now())]
    {
      ghost var before := Run();
      ClockFacts();
      var tickerTime := hw.Read();
      CountFrom(tickerTime);
      sys := sys.(now := presentTime);
      trace := trace + [Runs.Sync(hw.Now())];
      SyncRecorded(old(trace), before, hw.Now());
    }

    /** `update_present_time` on a counter value already read. */
    method CountFrom(tickerTime: nat)
      requires tickRemainder < frequency && 4 <= bits <= 32 && presentTime < TWO_64
      modifies this`tickLastRead, this`tickRemainder, this`presentTime
      ensures ClockView() == Synced(old(ClockView()), tickerTime)
    {
      if tickerTime == tickLastRead {
        SyncedAgain(ClockView());
        return;
      }
      var elapsedTicks := U32(tickerTime - tickLastRead) % Pow2(bits);
      MaskIsModulo(tickerTime - tickLastRead, bits);
      RangeFacts(bits);
      tickLastRead := tickerTime;
      AddElapsed(elapsedTicks);
    }

    /** Appending an access to the trace is one more step of the run. */
    lemma SyncRecorded(earlier: seq<Runs.Access>, before: Runs.Run, tick: nat)
      requires origin.clock.frequency > 0 && before == Runs.After(origin, earlier, hw.firesOnEqual)
      requires Runs.Sound(origin, earlier, hw.firesOnEqual, hw.lastTick) && before.last <= tick <= hw.lastTick
      ensures var now := earlier + [Runs.Sync(tick)];
        && Runs.Sound(origin, now, hw.firesOnEqual, hw.lastTick)
        && Runs.After(origin, now, hw.firesOnEqual) ==
           before.(clock := Synced(before.clock, tick % before.clock.Range()), last := tick)
        && before.clock.presentTime <= Synced(before.clock, tick % before.clock.Range()).presentTime
    {
      var now := earlier + [Runs.Sync(tick)];
      assert now[..|now| - 1] == earlier;
      Runs.SoundIsSane(origin, earlier, hw.firesOnEqual, hw.lastTick);
      Runs.AfterAppend(origin, earlier, Runs.Sync(tick), hw.firesOnEqual);
      Runs.SyncIsSane(origin, before, tick, hw.lastTick);
    }

    ghost method RecordProgram(p: Runs.Access)
      requires ClockValid() && p.Program?
      modifies this`trace
      ensures ClockValid() && trace == old(trace) + [p]
    {
      Runs.AfterAppend(origin, trace, p, hw.firesOnEqual);
      trace := trace + [p];
      assert trace[..|trace| - 1] == old(trace);
    }

    /** The second half of `update_present_time`: the three branches agree with one exact division
        of the elapsed ticks and the carried remainder. */
    method AddElapsed(elapsedTicks: nat)
      requires 0 < frequency && tickRemainder < frequency && elapsedTicks < TWO_32
      modifies this`tickRemainder, this`presentTime
      ensures tickRemainder == (elapsedTicks * MICROS + old(tickRemainder)) % frequency
      ensures presentTime == U64(old(presentTime) + (elapsedTicks * MICROS + old(tickRemainder)) / frequency)
    {
      var elapsedUs;
      if frequency == MICROS {
        elapsedUs := elapsedTicks;
        OneMegahertz(elapsedTicks, tickRemainder);
      } else {
        var usXTicks := U64(elapsedTicks * 1000000);
        FitsU64(elapsedTicks * MICROS);
        elapsedUs := DivideCarrying(usXTicks);
      }
      presentTime := U64(presentTime + elapsedUs);
    }

    /** The division in the branches for 32768 Hz, done by shifting, and for other frequencies. */
    method DivideCarrying(usXTicks: nat) returns (elapsedUs: nat)
      requires 0 < frequency && tickRemainder < frequency
      modifies this`tickRemainder
      ensures elapsedUs == (usXTicks + old(tickRemainder)) / frequency
      ensures tickRemainder == (usXTicks + old(tickRemainder)) % frequency
    {
      if frequency == 32768 {
        CarriedDivision(32768, usXTicks, tickRemainder);
        elapsedUs := usXTicks / 32768;
        tickRemainder := tickRemainder + (usXTicks - elapsedUs * 32768);
      } else {
        CarriedDivision(frequency, usXTicks, tickRemainder);
        elapsedUs := usXTicks / frequency;
        tickRemainder := tickRemainder + (usXTicks - elapsedUs * frequency);
      }
      if tickRemainder >= frequency {
        elapsedUs := elapsedUs + 1;
        tickRemainder := tickRemainder - frequency;
      }
    }

    ghost predicate HeadValid()
      reads this, head
    {
      && (head == null <==> sys.queue == [])
      && (head != null ==> head.timestamp == sys.queue[0].timestamp)
    }

    ghost function HeadTime(): Option<nat>
      reads this`sys
    {
      if sys.queue == [] then None else Some(sys.queue[0].timestamp)
    }

    /** How `schedule_interrupt` leaves the hardware. */
    ghost predicate Programmed(firedBefore: bool, readAt: nat)
      reads this`frequency, this`bits, this`maxDelta, this`maxDeltaUs
      reads this`tickLastRead, this`tickRemainder, this`presentTime
      reads this`sys, hw`matchTick, hw`fired
    {
      if Due(sys) then
        hw.fired
      else
        && hw.matchTick == Runs.MatchTick(ClockView(), HeadTime())
        && hw.fired == (firedBefore ||
             (sys.queue != [] && MatchIntervalPassed(tickLastRead, readAt % Pow2(bits), hw.matchTick)))
    }

    /** An interrupt is pending if an event is due; otherwise the match register stands at the tick
        computed for the head, or at the longest interval when the queue is empty. */
    ghost predicate Armed()
      reads this`frequency, this`bits, this`maxDelta, this`maxDeltaUs
      reads this`tickLastRead, this`tickRemainder, this`presentTime
      reads this`sys, hw`matchTick, hw`fired
    {
      if Due(sys) then hw.fired else hw.matchTick == Runs.MatchTick(ClockView(), HeadTime())
    }

    /** `schedule_interrupt`: after a fresh reading, the interrupt is raised at once if the head is
        due, and otherwise programmed, and raised after all if the counter ran past the match in
        the meantime. */
    method ScheduleInterrupt() returns (ghost tick: nat, ghost setAt: nat, ghost readAt: nat)
      requires Valid()
      modifies this`tickLastRead, this`tickRemainder, this`presentTime, this`sys, this`trace
      modifies hw`accesses, hw`matchTick, hw`fired
      ensures Valid()
      ensures sys == old(sys).(now := presentTime) && old(sys.now) <= sys.now
      ensures tick <= setAt <= readAt <= hw.Now()
      ensures trace == old(trace) + [Runs.Sync(tick)] + [Runs.Program(HeadTime(), setAt, readAt, hw.Now())]
      ensures Programmed(old(hw.fired), readAt)
    {
      HeadIsFirst();
      tick, setAt, readAt := SyncAndProgram();
    }

    method SyncAndProgram() returns (ghost tick: nat, ghost setAt: nat, ghost readAt: nat)
      requires ClockValid() && sys.now == presentTime && HeadValid()
      modifies this`tickLastRead, this`tickRemainder, this`presentTime, this`sys, this`trace
      modifies hw`accesses, hw`matchTick, hw`fired
      ensures ClockValid()
      ensures sys == old(sys).(now := presentTime) && old(sys.now) <= sys.now
      ensures tick <= setAt <= readAt <= hw.Now()
      ensures trace == old(trace) + [Runs.Sync(tick)] + [Runs.Program(HeadTime(), setAt, readAt, hw.Now())]
      ensures Programmed(old(hw.fired), readAt)
    {
      SyncClock();
      tick := hw.Now();
      setAt, readAt := Reprogram();
      RecordProgram(Runs.Program(HeadTime(), setAt, readAt, hw.Now()));
    }

    /** The part of `schedule_interrupt` after its `update_present_time`. */
    method Reprogram() returns (ghost setAt: nat, ghost readAt: nat)
      requires hw.Valid() && HeadValid() && sys.now == presentTime && bits == UsableBits(hw.bits)
      modifies hw`accesses, hw`matchTick, hw`fired
      ensures old(hw.accesses) <= hw.accesses && old(hw.Now()) <= setAt <= readAt <= hw.Now()
      ensures Programmed(old(hw.fired), readAt)
    {
      if head != null {
        var present := presentTime;
        var matchTime := head.timestamp;
        if matchTime <= present {
          hw.FireInterrupt();
          setAt, readAt := hw.Now(), hw.Now();
          return;
        }
        var matchTick := ComputeTick(ClockView(), matchTime);
        hw.SetInterrupt(matchTick);
        setAt := hw.Now();
        var curTick := hw.Read();
        readAt := hw.Now();
        if MatchIntervalPassed(tickLastRead, curTick, matchTick) {
          hw.FireInterrupt();
        }
      } else {
        var matchTick := U32(tickLastRead + maxDelta) % Pow2(bits);
        hw.SetInterrupt(matchTick);
        setAt, readAt := hw.Now(), hw.Now();
      }
    }

    /** `ticker_insert_event_us`. */
    method InsertEventUs(obj: TimerEvent, timestamp: nat)
      requires Valid() && obj in sys.timings && !Queued(sys.queue, obj)
      modifies this`head, this`tickLastRead, this`tickRemainder, this`presentTime, this`sys, this`trace
      modifies hw`accesses, hw`matchTick, hw`fired, obj`timestamp, obj`next, Nodes(sys.queue)`next
      ensures Valid()
      ensures sys == Put(old(sys), obj, timestamp).(now := presentTime) && old(sys.now) <= sys.now
      ensures Armed()
    {
      UpdatePresentTime();
      InsertSorted(obj, timestamp);
      var _, _, _ := ScheduleInterrupt();
    }

    method InsertSorted(obj: TimerEvent, timestamp: nat)
      requires Valid() && obj in sys.timings && !Queued(sys.queue, obj)
      modifies this`head, this`sys, obj`timestamp, obj`next, Nodes(sys.queue)`next
      ensures Valid()
      ensures sys == Put(old(sys), obj, timestamp)
    {
      Link(obj, U64(timestamp), sys.queue, sys.serial, sys.timings);
      sys := Put(sys, obj, timestamp);
    }

    lemma HeadIsFirst()
      requires ListValid(sys.queue, sys.serial, sys.timings, head)
      ensures HeadValid()
    {
      assert sys.queue != [] ==> LinkedAt(sys.queue, 0);
    }

    /** The walk of `ticker_insert_event_us`: it stops at the first later event, so the new one
        goes behind all with the same timestamp. */
    method FindPlace(timestamp: nat, ghost q: seq<Entry<TimerEvent>>)
      returns (prev: TimerEvent?, p: TimerEvent?, ghost k: nat)
      requires Linked(q, head)
      ensures k == Rank(q, timestamp)
      ensures p == if k < |q| then q[k].id else null
      ensures prev == if k > 0 then q[k - 1].id else null
    {
      prev, p, k := null, head, 0;
      while p != null
        invariant 0 <= k <= |q|
        invariant p == if k < |q| then q[k].id else null
        invariant prev == if k > 0 then q[k - 1].id else null
        invariant forall i :: 0 <= i < k ==> q[i].timestamp <= timestamp
        decreases |q| - k
      {
        assert LinkedAt(q, k);
        if timestamp < p.timestamp {
          break;
        }
        prev, p, k := p, p.next, k + 1;
      }
      RankIs(q, timestamp, k);
    }

    /** The relinking of `ticker_insert_event_us`. */
    method Link(obj: TimerEvent, timestamp: nat, ghost q: seq<Entry<TimerEvent>>, ghost serial: nat,
                ghost timings: map<TimerEvent, Timing>)
      requires ListValid(q, serial, timings, head) && obj in timings && !Queued(q, obj)
      modifies this`head, obj`timestamp, obj`next, Nodes(q)`next
      ensures ListValid(Inserted(q, Entry(obj, timestamp, serial)), serial + 1, timings, head)
    {
      ghost var e := Entry(obj, timestamp, serial);
      InsertedWellQueued(q, obj, timestamp, serial);
      Relink(obj, timestamp, q, serial);
      assert Nodes(Inserted(q, e)) <= timings.Keys;
    }

    method Relink(obj: TimerEvent, timestamp: nat, ghost q: seq<Entry<TimerEvent>>, ghost serial: nat)
      requires Linked(q, head) && DistinctIds(q) && !Queued(q, obj)
      modifies this`head, obj`timestamp, obj`next, Nodes(q)`next
      ensures Linked(Inserted(q, Entry(obj, timestamp, serial)), head)
    {
      obj.timestamp := timestamp;
      assert forall i :: 0 <= i < |q| ==> old(LinkedAt(q, i));
      assert Linked(q, head);
      var prev, p, k := FindPlace(timestamp, q);
      obj.next := p;
      if prev == null {
        head := obj;
      } else {
        prev.next := obj;
      }
      forall i | 0 <= i < |q| ensures Spliced(q, obj, k, i) {
        assert old(LinkedAt(q, i));
      }
      SplicedIsLinked(q, Entry(obj, timestamp, serial), head);
    }

    /** The `i`-th object of the old list after `obj` was linked in at place `k`. */
    static ghost predicate Spliced(q: seq<Entry<TimerEvent>>, obj: TimerEvent, k: nat, i: nat)
      requires i < |q|
      reads q[i].id
    {
      && q[i].id.timestamp == q[i].timestamp
      && q[i].id.next == if i + 1 == k then obj else if i + 1 < |q| then q[i + 1].id else null
    }

    static lemma SplicedIsLinked(q: seq<Entry<TimerEvent>>, e: Entry<TimerEvent>, first: TimerEvent?)
      requires var k := Rank(q, e.timestamp);
        && (forall i :: 0 <= i < |q| ==> Spliced(q, e.id, k, i))
        && e.id.timestamp == e.timestamp
        && e.id.next == (if k < |q| then q[k].id else null)
        && first == if k == 0 then e.id else q[0].id
      ensures Linked(Inserted(q, e), first)
    {
      InsertedAt(q, e, 0);
      forall i | 0 <= i < |Inserted(q, e)| ensures LinkedAt(Inserted(q, e), i) {
        SplicedAt(q, e, i);
      }
    }

    static lemma SplicedAt(q: seq<Entry<TimerEvent>>, e: Entry<TimerEvent>, i: nat)
      requires i <= |q| && e.id.timestamp == e.timestamp
      requires var k := Rank(q, e.timestamp);
        && (i < k ==> Spliced(q, e.id, k, i))
        && (i > k ==> Spliced(q, e.id, k, i - 1))
        && e.id.next == (if k < |q| then q[k].id else null)
      ensures LinkedAt(Inserted(q, e), i)
    {
      InsertedAt(q, e, i);
      if i < |q| {
        InsertedAt(q, e, i + 1);
      }
    }

    /** `ticker_remove_event`: reprograms only when the head goes. */
    method RemoveEvent(obj: TimerEvent)
      requires Valid()
      modifies this`head, this`tickLastRead, this`tickRemainder, this`presentTime, this`sys, this`trace
      modifies hw`accesses, hw`matchTick, hw`fired, Nodes(sys.queue)`next
      ensures Valid() && old(sys.now) <= sys.now
      ensures sys == old(sys).(queue := Without(old(sys.queue), obj), now := presentTime)
      ensures old(head) == obj ==> Armed()
      ensures old(head) != obj ==> unchanged(hw, this`head, this`presentTime, this`trace)
    {
      if head == obj {
        DropHead();
        var _, _, _ := ScheduleInterrupt();
      } else {
        DropLater(obj);
      }
    }

    /** Unlinking the first event. */
    method DropHead()
      requires Valid() && head != null
      modifies this`head, this`sys
      ensures Valid() && old(sys.queue) != [] && old(sys.queue)[0].id == old(head)
      ensures sys == old(sys).(queue := old(sys.queue)[1..])
      ensures !Queued(sys.queue, old(head)) && Without(old(sys.queue), old(head)) == sys.queue
    {
      ghost var q := sys.queue;
      assert LinkedAt(q, 0);
      head := head.next;
      sys := sys.(queue := q[1..]);
      TailWellQueued(q, sys.serial);
      TailIsLinked(q, head);
    }

    static lemma TailIsLinked(q: seq<Entry<TimerEvent>>, first: TimerEvent?)
      requires q != [] && Linked(q, q[0].id) && first == q[0].id.next
      ensures Linked(q[1..], first)
    {
      assert LinkedAt(q, 0);
      forall i | 0 <= i < |q[1..]| ensures LinkedAt(q[1..], i) {
        assert LinkedAt(q, i + 1);
      }
    }

    /** Unlinking any other event, if it is there. */
    method DropLater(obj: TimerEvent)
      requires Valid() && head != obj
      modifies this`sys, Nodes(sys.queue)`next
      ensures Valid() && sys == old(sys).(queue := Without(old(sys.queue), obj))
    {
      WithoutWellQueued(sys.queue, sys.serial, obj);
      NoLongerQueued(sys.queue, sys.serial, obj);
      Unlink(obj, sys.queue);
      sys := sys.(queue := Without(sys.queue, obj));
    }

    method Unlink(obj: TimerEvent, ghost q: seq<Entry<TimerEvent>>)
      requires Linked(q, head) && DistinctIds(q) && head != obj
      modifies Nodes(q)`next
      ensures Linked(Without(q, obj), head)
    {
      var p, k := FindBefore(obj, q);
      if p != null {
        assert forall i :: 0 <= i < |q| ==> old(LinkedAt(q, i));
        assert old(LinkedAt(q, k)) && old(LinkedAt(q, k + 1));
        p.next := obj.next;
        forall i | 0 <= i < |q| && i != k ensures LinkedAt(q, i) {
          assert old(LinkedAt(q, i));
        }
        CutIsLinked(q, k + 1, head);
      }
    }

    /** The walk of `ticker_remove_event`, to the object before `obj`. */
    method FindBefore(obj: TimerEvent, ghost q: seq<Entry<TimerEvent>>)
      returns (p: TimerEvent?, ghost k: nat)
      requires Linked(q, head) && DistinctIds(q) && head != obj
      ensures p == null ==> IndexOf(q, obj) == |q|
      ensures p != null ==> IndexOf(q, obj) == k + 1 < |q| && p == q[k].id
    {
      p, k := head, 0;
      while p != null
        invariant 0 <= k <= |q| && p == if k < |q| then q[k].id else null
        invariant forall i :: 0 <= i <= k && i < |q| ==> q[i].id != obj
        decreases |q| - k
      {
        assert LinkedAt(q, k);
        if p.next == obj {
          return;
        }
        p, k := p.next, k + 1;
      }
    }

    static lemma CutIsLinked(q: seq<Entry<TimerEvent>>, j: nat, first: TimerEvent?)
      requires 0 < j < |q| && first == q[0].id
      requires forall i :: 0 <= i < |q| && i != j - 1 ==> LinkedAt(q, i)
      requires q[j - 1].id.timestamp == q[j - 1].timestamp && q[j - 1].id.next == q[j].id.next
      ensures Linked(q[..j] + q[j + 1..], first)
    {
      var r := q[..j] + q[j + 1..];
      assert LinkedAt(q, j);
      forall i | 0 <= i < |r| ensures LinkedAt(r, i) {
        if i < j - 1 {
          assert LinkedAt(q, i);
        } else if i >= j {
          assert LinkedAt(q, i + 1);
        }
      }
    }

    /** `ticker_read_us`. */
    method ReadUs() returns (time: nat)
      requires Valid()
      modifies this`tickLastRead, this`tickRemainder, this`presentTime, this`sys, this`trace, hw`accesses
      ensures Valid() && time == presentTime
      ensures sys == old(sys).(now := presentTime) && old(sys.now) <= sys.now
    {
      UpdatePresentTime();
      time := presentTime;
    }

    /** `ticker_insert_event`: a 32-bit timestamp is taken to lie within 2^32 microseconds from now. */
    method InsertEvent(obj: TimerEvent, timestamp: nat) returns (ghost time: nat, ghost absolute: nat)
      requires Valid() && obj in sys.timings && !Queued(sys.queue, obj)
      requires timestamp < TWO_32 && Runs.Horizon(origin, hw.lastTick) + TWO_32 < TWO_64
      modifies this`head, this`tickLastRead, this`tickRemainder, this`presentTime, this`sys, this`trace
      modifies hw`accesses, hw`matchTick, hw`fired, obj`timestamp, obj`next, Nodes(sys.queue)`next
      ensures Valid()
      ensures old(sys.now) <= time <= sys.now && time <= absolute < time + TWO_32 && U32(absolute) == timestamp
      ensures sys == Put(old(sys), obj, absolute).(now := presentTime)
    {
      UpdatePresentTime();
      time := presentTime;
      ClockFacts();
      ConvertTimestampUnique(time, timestamp, ConvertTimestamp(presentTime, timestamp));
      absolute := ConvertTimestamp(presentTime, timestamp);
      InsertEventUs(obj, ConvertTimestamp(presentTime, timestamp));
    }

    /** `ticker_get_next_timestamp`. */
    method GetNextTimestamp() returns (next: Option<nat>)
      requires Valid()
      ensures next.None? <==> sys.queue == []
      ensures next.Some? ==> next.value == U32(sys.queue[0].timestamp)
      ensures next.Some? ==> forall i :: 0 <= i < |sys.queue| ==> sys.queue[0].timestamp <= sys.queue[i].timestamp
    {
      HeadIsFirst();
      next := if head != null then Some(U32(head.timestamp)) else None;
      assert forall i :: 0 < i < |sys.queue| ==> Before(sys.queue[0], sys.queue[i]);
    }

    /** `Ticker::setup` for a Ticker or a Timeout: `start` is the reading the period counts from. */
    method Attach(obj: TimerEvent, period: nat) returns (ghost start: nat)
      requires Valid()
      modifies this`head, this`tickLastRead, this`tickRemainder, this`presentTime, this`sys, this`trace
      modifies hw`accesses, hw`matchTick, hw`fired, obj, Nodes(sys.queue)`next
      ensures Valid() && old(sys.now) <= start <= sys.now
      ensures sys == Next(old(sys).(now := start), Event.Attach(obj, period, obj.repeats)).(now := presentTime)
      ensures obj in Nodes(sys.queue) && obj in sys.timings
      ensures sys.timings[obj] == Timing(start, period, obj.repeats, [])
      ensures Armed()
    {
      ghost var was := sys;
      RemoveEvent(obj);
      NoLongerQueued(was.queue, was.serial, obj);
      ghost var removed := sys;
      start := Restart(obj, period);
      AttachIs(was, removed, obj, start, period);
    }

    /** What follows the removal in `Ticker::setup`. */
    method Restart(obj: TimerEvent, period: nat) returns (ghost start: nat)
      requires Valid() && !Queued(sys.queue, obj)
      modifies this`head, this`tickLastRead, this`tickRemainder, this`presentTime, this`sys, this`trace
      modifies hw`accesses, hw`matchTick, hw`fired, obj, Nodes(sys.queue)`next
      ensures Valid() && old(sys.now) <= start <= sys.now
      ensures var timings := old(sys.timings)[obj := Timing(start, period, obj.repeats, [])];
        sys == Put(old(sys).(now := start, timings := timings), obj, start + period).(now := presentTime)
      ensures Armed()
    {
      var time := StartTiming(obj, period);
      start := time;
      InsertEventUs(obj, time + period);
    }

    static lemma NoLongerQueued(q: seq<Entry<TimerEvent>>, serial: nat, obj: TimerEvent)
      requires WellQueued(q, serial)
      ensures !Queued(Without(q, obj), obj) && Nodes(Without(q, obj)) <= Nodes(q)
    {
      WithoutWellQueued(q, serial, obj);
    }

    /** `_delay` is set, and then the time is read. */
    method StartTiming(obj: TimerEvent, period: nat) returns (time: nat)
      requires Valid() && !Queued(sys.queue, obj)
      modifies this`tickLastRead, this`tickRemainder, this`presentTime, this`sys, this`trace, hw`accesses, obj`delay
      ensures Valid() && old(sys.now) <= time
      ensures sys == old(sys).(now := time, timings := old(sys.timings)[obj := Timing(time, period, obj.repeats, [])])
    {
      SetDelay(obj, period, presentTime);
      ghost var early := Timing(presentTime, period, obj.repeats, []);
      time := ReadUs();
      UpdatedTwice(old(sys.timings), obj, early, Timing(time, period, obj.repeats, []));
      SetDelay(obj, period, time);
    }

    method SetDelay(obj: TimerEvent, period: nat, ghost start: nat)
      requires Valid() && !Queued(sys.queue, obj)
      modifies this`sys, obj`delay
      ensures Valid()
      ensures sys == old(sys).(timings := old(sys.timings)[obj := Timing(start, period, obj.repeats, [])])
    {
      obj.delay := period;
      sys := sys.(timings := sys.timings[obj := Timing(start, period, obj.repeats, [])]);
    }

    /** `Ticker::detach`. */
    method Detach(obj: TimerEvent)
      requires Valid()
      modifies this`head, this`tickLastRead, this`tickRemainder, this`presentTime, this`sys, this`trace
      modifies hw`accesses, hw`matchTick, hw`fired, Nodes(sys.queue)`next
      ensures Valid() && old(sys.now) <= sys.now
      ensures sys == Next(old(sys), Event.Detach(obj)).(now := presentTime)
      ensures obj !in Nodes(sys.queue) && obj !in sys.timings
    {
      RemoveEvent(obj);
      NoLongerQueued(old(sys.queue), old(sys.serial), obj);
      sys := sys.(timings := sys.timings - {obj});
    }

    ghost function Limit(): nat
      requires origin.clock.frequency > 0
    {
      Runs.Horizon(origin, hw.lastTick)
    }

    /** `TimerEvent::irq` and the handler it calls, up to the call of its function: a Ticker goes back
        into the queue, counted from the timestamp it was due at. */
    method Handle(p: TimerEvent, ghost e: Entry<TimerEvent>)
      requires Valid() && p in sys.timings && !Queued(sys.queue, p)
      requires e.id == p && e.timestamp == p.timestamp
      modifies this`head, this`tickLastRead, this`tickRemainder, this`presentTime, this`sys, this`trace
      modifies hw`accesses, hw`matchTick, hw`fired, p, Nodes(sys.queue)`next
      ensures Valid() && old(sys.now) <= sys.now
      ensures sys == Called(old(sys), e).(now := presentTime)
    {
      RecordCall(p, e);
      if p.repeats {
        InsertEventUs(p, p.timestamp + p.delay);
      }
    }

    ghost method RecordCall(p: TimerEvent, e: Entry<TimerEvent>)
      requires Valid() && p in sys.timings && e.id == p && e.timestamp == p.timestamp
      modifies this`sys
      ensures Valid() && sys.queue == old(sys.queue) && sys.now == old(sys.now) && p in sys.timings
      ensures Called(old(sys), e) == if p.repeats then Put(sys, p, p.timestamp + p.delay) else sys
    {
      var t := sys.timings[p];
      sys := sys.(timings := sys.timings[p := t.(calls := t.calls + [e.timestamp])]);
    }

    /** One iteration of the interrupt loop on a due event, up to the call of its function. */
    method DispatchHead()
      requires Valid() && Due(sys)
      modifies this`head, this`tickLastRead, this`tickRemainder, this`presentTime, this`sys, this`trace
      modifies hw`accesses, hw`matchTick, hw`fired, Nodes(sys.queue)
      ensures Valid() && old(sys.now) <= sys.now
      ensures sys == Dispatched(old(sys)).(now := presentTime)
    {
      HeadIsFirst();
      ghost var e := sys.queue[0];
      var p := head;
      assert LinkedAt(sys.queue, 0);
      DropHead();
      Handle(p, e);
    }

    /** What callbacks may do: they touch `timers` only, give every period a length, and stay below the
        64-bit horizon. */
    ghost predicate Harmless(c: Command)
      requires origin.clock.frequency > 0
    {
      c.obj in timers && (c.Arm? ==> c.period > 0 && Limit() + c.period < TWO_64)
    }

    ghost predicate AllHarmless()
      requires origin.clock.frequency > 0
    {
      forall n: nat, i: nat :: i < |callback(n)| ==> Harmless(callback(n)[i])
    }

    /** The state and the record of a run of the interrupt loop that began in `start`. */
    ghost predicate Running(start: System<TimerEvent>, events: seq<Event<TimerEvent>>)
      reads this`frequency, this`bits, this`maxDelta, this`maxDeltaUs
      reads this`tickLastRead, this`tickRemainder, this`presentTime
      reads this`trace, this`head, this`sys, hw`accesses, Nodes(sys.queue), sys.timings.Keys
    {
      && Valid() && NoHang(sys.timings, Limit()) && sys.now <= Limit()
      && AllAllowed(start, events) && sys == After(start, events)
    }

    /** `ticker_irq_handler`. Each dispatch calls a function that may attach and detach any Tickers and
        Timeouts, the one being handled included. `events` lists what happened up to the moment the
        loop found nothing due: readings of the clock, dispatches, and what the callbacks did. The loop
        ends because no period is zero and the counter is read only finitely far ahead. */
    method IrqHandler() returns (ghost events: seq<Event<TimerEvent>>)
      requires Valid() && NoHang(sys.timings, Limit()) && AllHarmless()
      modifies this, hw, timers, Nodes(sys.queue)
      ensures Valid() && callbacks >= old(callbacks)
      ensures Acts(events) == Dispatches(callback, old(callbacks), callbacks)
      ensures AllAllowed(old(sys), events) && !Due(After(old(sys), events))
      ensures sys == After(old(sys), events).(now := presentTime)
      ensures After(old(sys), events).now <= sys.now
      ensures Inv(old(sys)) ==> Inv(After(old(sys), events)) && forall id :: id in sys.timings ==>
        Punctual(sys.timings[id], After(old(sys), events).now)
      ensures Armed()
      ensures callbacks == old(callbacks) && sys.queue == [] ==> !hw.fired
    {
      ghost var was := sys;
      hw.ClearInterrupt();
      events := HandlePending();
      if Inv(was) {
        DriftFree(was, events);
      }
      var _, _, _ := ScheduleInterrupt();
    }

    /** The loop over the pending events. */
    method HandlePending() returns (ghost events: seq<Event<TimerEvent>>)
      requires Valid() && NoHang(sys.timings, Limit()) && AllHarmless()
      modifies this, hw, timers, Nodes(sys.queue)
      ensures Running(old(sys), events) && !Due(sys) && callbacks >= old(callbacks)
      ensures callbacks == old(callbacks) ==> hw.fired == old(hw.fired)
      ensures Acts(events) == Dispatches(callback, old(callbacks), callbacks)
    {
      ClockFacts();
      events := [];
      var more := true;
      ghost var start, from, objects := sys, callbacks, Nodes(sys.queue) + timers;
      while more
        invariant Running(start, events) && callbacks >= from && Nodes(sys.queue) <= objects
        invariant Acts(events) == Dispatches(callback, from, callbacks)
        invariant more || !Due(sys)
        invariant callbacks == from ==> hw.fired == old(hw.fired)
        decreases more, Limit() - sys.now, Work(sys.queue, sys.timings, sys.now)
      {
        more, events := NextRound(start, from, events);
      }
    }

    /** One more round, with the account of the dispatches since the one numbered `from`. */
    method NextRound(ghost start: System<TimerEvent>, ghost from: nat, ghost past: seq<Event<TimerEvent>>)
      returns (more: bool, ghost events: seq<Event<TimerEvent>>)
      requires Running(start, past) && AllHarmless()
      requires from <= callbacks && Acts(past) == Dispatches(callback, from, callbacks)
      modifies this, hw, timers, Nodes(sys.queue)
      ensures Running(start, events) && Nodes(sys.queue) <= old(Nodes(sys.queue)) + timers
      ensures from <= callbacks && Acts(events) == Dispatches(callback, from, callbacks)
      ensures !more ==> !Due(sys) && callbacks == old(callbacks) && hw.fired == old(hw.fired)
      ensures more ==> Nearer(old(sys), sys) && callbacks > from
    {
      OneDispatchMore(callback, from, callbacks);
      more, events := Round(start, past);
    }

    /** The body of the loop: the head is looked at with the clock brought up to date. */
    method Round(ghost start: System<TimerEvent>, ghost past: seq<Event<TimerEvent>>)
      returns (more: bool, ghost events: seq<Event<TimerEvent>>)
      requires Running(start, past) && AllHarmless()
      modifies this, hw, timers, Nodes(sys.queue)
      ensures Running(start, events) && Nodes(sys.queue) <= old(Nodes(sys.queue)) + timers
      ensures !more ==> !Due(sys) && callbacks == old(callbacks) && Acts(events) == Acts(past)
      ensures !more ==> hw.fired == old(hw.fired)
      ensures more ==> Nearer(old(sys), sys) && callbacks == old(callbacks) + 1
      ensures more ==> Acts(events) == Acts(past) + [Fire] + Script(callback(old(callbacks)))
    {
      events := past;
      HeadIsFirst();
      if head == null {
        return false, events;
      }
      UpdatePresentTime();
      ClockFacts();
      events := Recorded(start, past, Advance(presentTime));
      HeadIsFirst();
      more := head.timestamp <= presentTime;
      if more {
        events := Dispatch(start, events);
      }
    }

    lemma Recorded(start: System<TimerEvent>, past: seq<Event<TimerEvent>>, e: Event<TimerEvent>)
      returns (events: seq<Event<TimerEvent>>)
      requires AllAllowed(start, past) && Allowed(After(start, past), e)
      ensures AllAllowed(start, events)
      ensures After(start, events) == Next(After(start, past), e)
      ensures Acts(events) == if e.Advance? then Acts(past) else Acts(past) + [e]
    {
      events := past + [e];
      assert events[..|events| - 1] == past;
      AfterAppend(start, past, e);
    }

    lemma RecordedTwo(start: System<TimerEvent>, past: seq<Event<TimerEvent>>, e: Event<TimerEvent>, now: nat)
      returns (events: seq<Event<TimerEvent>>)
      requires AllAllowed(start, past) && Allowed(After(start, past), e) && !e.Advance?
      requires Next(After(start, past), e).now <= now
      ensures AllAllowed(start, events)
      ensures After(start, events) == Next(After(start, past), e).(now := now)
      ensures Acts(events) == Acts(past) + [e]
    {
      events := Recorded(start, past, e);
      events := Recorded(start, events, Advance(now));
    }

    static lemma NodesAfterDispatch(s: System<TimerEvent>)
      requires Due(s)
      ensures Nodes(Dispatched(s).queue) <= Nodes(s.queue)
    {
      DispatchKeepsIds(s);
    }

    /** One dispatch: the head is unlinked, re-armed if it is a Ticker, and its function called. */
    method Dispatch(ghost start: System<TimerEvent>, ghost past: seq<Event<TimerEvent>>)
      returns (ghost events: seq<Event<TimerEvent>>)
      requires Running(start, past) && Due(sys) && AllHarmless()
      modifies this, hw, timers, Nodes(sys.queue)
      ensures Running(start, events) && callbacks == old(callbacks) + 1
      ensures Acts(events) == Acts(past) + [Fire] + Script(callback(old(callbacks)))
      ensures Nodes(sys.queue) <= old(Nodes(sys.queue)) + timers
      ensures Nearer(old(sys), sys)
    {
      var commands := callback(callbacks);
      callbacks := callbacks + 1;
      events := DispatchRecorded(start, past);
      events := Call(start, events, commands);
    }

    /** The function called by a dispatch. */
    method Call(ghost start: System<TimerEvent>, ghost past: seq<Event<TimerEvent>>, commands: seq<Command>)
      returns (ghost events: seq<Event<TimerEvent>>)
      requires Running(start, past) && forall i: nat :: i < |commands| ==> Harmless(commands[i])
      modifies this`head, this`tickLastRead, this`tickRemainder, this`presentTime, this`sys, this`trace
      modifies hw`accesses, hw`matchTick, hw`fired, timers, Nodes(sys.queue)
      ensures Running(start, events) && Acts(events) == Acts(past) + Script(commands)
      ensures Nodes(sys.queue) <= old(Nodes(sys.queue)) + timers
      ensures NotFarther(old(sys), sys)
    {
      events := past;
      for i := 0 to |commands|
        invariant Running(start, events)
        invariant Acts(events) == Acts(past) + Script(commands[..i])
        invariant Nodes(sys.queue) <= old(Nodes(sys.queue)) + timers
        invariant NotFarther(old(sys), sys)
      {
        events := Obey(start, events, commands[i]);
        ScriptMore(commands, i, Acts(past));
      }
      assert commands[..|commands|] == commands;
    }

    static lemma ScriptMore(commands: seq<Command>, i: nat, past: seq<Event<TimerEvent>>)
      requires i < |commands|
      ensures past + Script(commands[..i + 1]) == past + Script(commands[..i]) + [commands[i].Act()]
    {
      assert Script(commands[..i + 1]) == Script(commands[..i]) + [commands[i].Act()];
    }

    method DispatchRecorded(ghost start: System<TimerEvent>, ghost past: seq<Event<TimerEvent>>)
      returns (ghost events: seq<Event<TimerEvent>>)
      requires Running(start, past) && Due(sys)
      modifies this`head, this`tickLastRead, this`tickRemainder, this`presentTime, this`sys, this`trace
      modifies hw`accesses, hw`matchTick, hw`fired, Nodes(sys.queue)
      ensures Running(start, events) && Acts(events) == Acts(past) + [Fire]
      ensures Nodes(sys.queue) <= old(Nodes(sys.queue))
      ensures Nearer(old(sys), sys)
    {
      ClockFacts();
      FireUsesWork(sys, Limit());
      FireUsesWork(sys, sys.now);
      NodesAfterDispatch(sys);
      DispatchHead();
      ClockFacts();
      events := RecordedTwo(start, past, Fire, presentTime);
    }

    /** One command of a callback. */
    method Obey(ghost start: System<TimerEvent>, ghost past: seq<Event<TimerEvent>>, c: Command)
      returns (ghost events: seq<Event<TimerEvent>>)
      requires Running(start, past) && Harmless(c)
      modifies this`head, this`tickLastRead, this`tickRemainder, this`presentTime, this`sys, this`trace
      modifies hw`accesses, hw`matchTick, hw`fired, c.obj, Nodes(sys.queue)
      ensures Running(start, events) && Acts(events) == Acts(past) + [c.Act()]
      ensures Nodes(sys.queue) <= old(Nodes(sys.queue)) + {c.obj}
      ensures NotFarther(old(sys), sys)
    {
      match c
      case Arm(obj, period) => events := ObeyArm(start, past, obj, period);
      case Disarm(obj) => events := ObeyDisarm(start, past, obj);
    }

    method ObeyArm(ghost start: System<TimerEvent>, ghost past: seq<Event<TimerEvent>>, obj: TimerEvent, period: nat)
      returns (ghost events: seq<Event<TimerEvent>>)
      requires Running(start, past) && period > 0 && Limit() + period < TWO_64
      modifies this`head, this`tickLastRead, this`tickRemainder, this`presentTime, this`sys, this`trace
      modifies hw`accesses, hw`matchTick, hw`fired, obj, Nodes(sys.queue)
      ensures Running(start, events) && Acts(events) == Acts(past) + [Event.Attach(obj, period, obj.repeats)]
      ensures Nodes(sys.queue) <= old(Nodes(sys.queue)) + {obj}
      ensures NotFarther(old(sys), sys)
    {
      ghost var was := sys;
      ghost var from := Attach(obj, period);
      ClockFacts();
      ArmedNotFarther(was, from, presentTime, obj, period, obj.repeats);
      NodesAfterAttach(was.(now := from), obj, period, obj.repeats);
      events := Recorded(start, past, Advance(from));
      events := RecordedTwo(start, events, Event.Attach(obj, period, obj.repeats), presentTime);
    }

    static lemma NodesAfterAttach(s: System<TimerEvent>, obj: TimerEvent, period: nat, repeats: bool)
      requires WellQueued(s.queue, s.serial)
      ensures Nodes(Next(s, Event.Attach(obj, period, repeats)).queue) <= Nodes(s.queue) + {obj}
    {
      NoLongerQueued(s.queue, s.serial, obj);
    }

    method ObeyDisarm(ghost start: System<TimerEvent>, ghost past: seq<Event<TimerEvent>>, obj: TimerEvent)
      returns (ghost events: seq<Event<TimerEvent>>)
      requires Running(start, past)
      modifies this`head, this`tickLastRead, this`tickRemainder, this`presentTime, this`sys, this`trace
      modifies hw`accesses, hw`matchTick, hw`fired, Nodes(sys.queue)`next
      ensures Running(start, events) && Acts(events) == Acts(past) + [Event.Detach(obj)]
      ensures Nodes(sys.queue) <= old(Nodes(sys.queue))
      ensures NotFarther(old(sys), sys)
    {
      ghost var was := sys;
      Detach(obj);
      ClockFacts();
      DetachedNotFarther(was, presentTime, obj);
      NoLongerQueued(was.queue, was.serial, obj);
      events := RecordedTwo(start, past, Event.Detach(obj), presentTime);
    }
  }

  /** Attaching is removing and then inserting at `start`. */
  lemma AttachIs(was: System<TimerEvent>, removed: System<TimerEvent>, obj: TimerEvent, start: nat, period: nat)
    requires removed == was.(queue := Without(was.queue, obj), now := removed.now)
    ensures Next(was.(now := start), Event.Attach(obj, period, obj.repeats)) ==
      Put(removed.(now := start, timings := removed.timings[obj := Timing(start, period, obj.repeats, [])]),
          obj, start + period)
  {
  }

  /** Reading the same counter value again changes nothing, as the early return assumes. */
  lemma SyncedAgain(c: Clock)
    requires c.tickRemainder < c.frequency && c.presentTime < TWO_64
    ensures Synced(c, c.tickLastRead) == c
  {
    SmallDivMod(0, c.Range());
    SmallDivMod(c.tickRemainder, c.frequency);
    FitsU64(c.presentTime);
  }

  lemma UpdatedTwice<K, V>(m: map<K, V>, k: K, a: V, b: V)
    ensures m[k := a][k := b] == m[k := b]
  {
  }

  lemma OneMegahertz(ticks: nat, carried: nat)
    requires carried < MICROS
    ensures (ticks * MICROS + carried) / MICROS == ticks
    ensures (ticks * MICROS + carried) % MICROS == carried
  {
  }

  /** Dividing with a remainder carried over and at most one correction. */
  lemma CarriedDivision(f: nat, product: nat, carried: nat)
    requires carried < f
    ensures 0 <= product - product / f * f
    ensures var q := product / f;
      var r := carried + (product - q * f);
      if r >= f then
        q + 1 == (product + carried) / f && r - f == (product + carried) % f
      else
        q == (product + carried) / f && r == (product + carried) % f
  {
    var q := product / f;
    DivModRebuilds(product, f);
    var r := carried + (product - q * f);
    assert (q + 1) * f == q * f + f;
    if r >= f {
      DivModUnique(product + carried, f, q + 1, r - f);
    } else {
      DivModUnique(product + carried, f, q, r);
    }
  }
}
