/** Whole runs of a ticker's hardware accesses: no sequence of reads and reprogrammings loses a
    lap of the counter, so the clock stays exact for ever. */
module TickerRuns {
  import opened Prelude
  import opened TickerClock

  /** One hardware access of the ticker code, at the true ticks where it happens: the counter
      read of `update_present_time`, or the reprogramming done by `schedule_interrupt` for the
      timestamp at the head of the queue: when the match register was written, when the counter was
      read back, and when the interrupt was raised if it had to be. */
  datatype Access =
    | Sync(tick: nat)
    | Program(head: Option<nat>, setAt: nat, readAt: nat, doneAt: nat)

  /** `last` is the true tick of the last recorded read, `due` the one by which the interrupt
      will have been raised. */
  datatype Run = Run(clock: Clock, last: nat, due: nat)

  function MatchTick(c: Clock, head: Option<nat>): nat {
    if head.Some? then
      ComputeTick(c, head.value)
    else
      U32(c.tickLastRead + c.maxDelta) % c.Range()
  }

  /** The true tick at which the hardware raises an interrupt for a match register written at
      `setAt`, unless the software raises it at `doneAt` because the read at `readAt` shows that the
      counter is past the match. The register fires when the counter next takes its value, which
      includes the current tick on hardware that `firesOnEqual`. */
  function RaisedTick(c: Clock, matchTick: nat, checked: bool, setAt: nat, readAt: nat, doneAt: nat,
                      firesOnEqual: bool): int {
    var natural := NextMatch(c.Range(), if firesOnEqual then setAt - 1 else setAt, matchTick);
    if checked && MatchIntervalPassed(c.tickLastRead, readAt % c.Range(), matchTick) then
      Min(natural, doneAt)
    else
      natural
  }

  /** When the interrupt that `schedule_interrupt` asks for comes. */
  function DueTick(c: Clock, head: Option<nat>, setAt: nat, readAt: nat, doneAt: nat, firesOnEqual: bool): int {
    if head.Some? && head.value <= c.presentTime then
      setAt
    else
      RaisedTick(c, MatchTick(c, head), head.Some?, setAt, readAt, doneAt, firesOnEqual)
  }

  function Next(r: Run, a: Access, firesOnEqual: bool): Run
    requires r.clock.frequency > 0
  {
    match a
    case Sync(tick) => r.(clock := Synced(r.clock, tick % r.clock.Range()), last := tick)
    case Program(head, setAt, readAt, doneAt) =>
      r.(due := Max(0, DueTick(r.clock, head, setAt, readAt, doneAt, firesOnEqual)))
  }

  function After(r: Run, trace: seq<Access>, firesOnEqual: bool): (r': Run)
    requires r.clock.frequency > 0
    ensures r'.clock.frequency == r.clock.frequency
    decreases |trace|
  {
    if trace == [] then r else After(Next(r, trace[0], firesOnEqual), trace[1..], firesOnEqual)
  }

  /** What the system owes the ticker: time runs forward, a reprogramming takes less than 7/16 of
      the counter's range, and no read comes 9/16 of the range or more after the
      interrupt was due, since the interrupt handler itself reads the counter. */
  ghost predicate Timely(r: Run, trace: seq<Access>, firesOnEqual: bool)
    requires r.clock.frequency > 0
    decreases |trace|
  {
    trace != [] ==>
      && (match trace[0]
          case Sync(tick) => r.last <= tick < r.due + (r.clock.Range() - r.clock.maxDelta)
          case Program(head, setAt, readAt, doneAt) =>
            && r.last <= setAt <= readAt <= doneAt < r.last + r.clock.maxDelta
            && (head.Some? ==> head.value < TWO_64))
      && Timely(Next(r, trace[0], firesOnEqual), trace[1..], firesOnEqual)
  }

  /** The head of the queue is at least one tick away, or already due, or there is none. */
  predicate Reachable(c: Clock, last: nat, head: Option<nat>, setAt: nat, firesOnEqual: bool) {
    || head.None?
    || head.value <= c.presentTime
    || (head.value - c.presentTime) * c.frequency >= MICROS
    || (firesOnEqual && setAt == last)
  }

  ghost predicate AllReachable(r: Run, trace: seq<Access>, firesOnEqual: bool)
    requires r.clock.frequency > 0
    decreases |trace|
  {
    trace != [] ==>
      && (trace[0].Program? ==> Reachable(r.clock, r.last, trace[0].head, trace[0].setAt, firesOnEqual))
      && AllReachable(Next(r, trace[0], firesOnEqual), trace[1..], firesOnEqual)
  }

  ghost predicate Tracking(r: Run, start: nat) {
    && r.clock.WellFormed()
    && start <= r.last
    && r.clock.tickLastRead == r.last % r.clock.Range()
    && Exact(r.clock, r.last - start)
    && r.due <= r.last + r.clock.maxDelta
  }

  lemma NextMatchIs(range: nat, prev: int, tick: nat)
    requires prev < tick <= prev + range
    ensures NextMatch(range, prev, tick % range) == tick
  {
    ModAdd(tick, -(prev + 1), range);
    SmallDivMod(tick - prev - 1, range);
  }

  /** When the interrupt asked for comes: at the scheduled tick if the match register was written
      in time, immediately if the counter was already there, but a lap too late when the event
      is less than one tick ahead. */
  lemma DueTickWithin(c: Clock, last: nat, head: Option<nat>, setAt: nat, readAt: nat, doneAt: nat, firesOnEqual: bool)
    requires c.WellFormed() && c.tickLastRead == last % c.Range()
    requires last <= setAt <= readAt <= doneAt < last + c.maxDelta
    requires head.Some? ==> head.value < TWO_64
    ensures DueTick(c, head, setAt, readAt, doneAt, firesOnEqual) >= last
    ensures DueTick(c, head, setAt, readAt, doneAt, firesOnEqual) <= last + c.maxDelta
       <==> Reachable(c, last, head, setAt, firesOnEqual)
  {
    var due := DueTick(c, head, setAt, readAt, doneAt, firesOnEqual);
    if head.None? {
      DueTickIdle(c, last, setAt, readAt, doneAt, firesOnEqual);
    } else if head.value <= c.presentTime {
      assert due == setAt;
    } else {
      DueTickOfEvent(c, last, head.value, setAt, readAt, doneAt, firesOnEqual);
      assert c.maxDelta < c.Range() by {
        RangeFacts(c.bits);
      }
    }
  }

  lemma DueTickIdle(c: Clock, last: nat, setAt: nat, readAt: nat, doneAt: nat, firesOnEqual: bool)
    requires 4 <= c.bits <= 32 && c.maxDelta == 7 * Pow2(c.bits - 4) && c.tickLastRead == last % c.Range()
    requires last <= setAt < last + c.maxDelta
    ensures DueTick(c, None, setAt, readAt, doneAt, firesOnEqual) == last + c.maxDelta
  {
    RangeFacts(c.bits);
    MaskIsModulo(c.tickLastRead + c.maxDelta, c.bits);
    ModAdd(last, c.maxDelta, c.Range());
    assert MatchTick(c, None) == (last + c.maxDelta) % c.Range();
    MatchAfter(c.Range(), last, c.maxDelta, if firesOnEqual then setAt - 1 else setAt, setAt);
  }

  lemma DueTickOfEvent(c: Clock, last: nat, timestamp: nat, setAt: nat, readAt: nat, doneAt: nat, firesOnEqual: bool)
    requires c.WellFormed() && c.tickLastRead == last % c.Range()
    requires last <= setAt <= readAt <= doneAt < last + c.maxDelta
    requires c.presentTime < timestamp < TWO_64
    ensures var due := DueTick(c, Some(timestamp), setAt, readAt, doneAt, firesOnEqual);
      if (timestamp - c.presentTime) * c.frequency >= MICROS then
        last <= due <= last + c.maxDelta
      else
        due == if firesOnEqual && setAt == last then last else last + c.Range()
  {
    var delta := Delta(c, timestamp);
    ComputeTickIsClampedDelta(c, timestamp);
    DivAtLeast((timestamp - c.presentTime) * c.frequency, MICROS, 1);
    RaisedForDelta(c, last, delta, setAt, readAt, doneAt, firesOnEqual);
  }

  lemma RaisedForDelta(c: Clock, last: nat, delta: nat, setAt: nat, readAt: nat, doneAt: nat, firesOnEqual: bool)
    requires c.WellFormed() && c.tickLastRead == last % c.Range() && delta <= c.maxDelta
    requires last <= setAt <= readAt <= doneAt < last + c.maxDelta
    ensures var due := RaisedTick(c, (c.tickLastRead + delta) % c.Range(), true, setAt, readAt, doneAt, firesOnEqual);
      if delta > 0 then
        last <= due <= last + c.maxDelta
      else
        due == if firesOnEqual && setAt == last then last else last + c.Range()
  {
    RangeFacts(c.bits);
    ModAdd(last, delta, c.Range());
    MatchAfter(c.Range(), last, delta, if firesOnEqual then setAt - 1 else setAt, readAt);
  }

  /** When the counter next shows the value `delta` ticks after `last`, and whether the reader at
      `readAt` can tell that it already has. */
  lemma MatchAfter(range: nat, last: nat, delta: nat, from: int, readAt: nat)
    requires delta < range && last - 1 <= from <= readAt && last <= readAt < last + range
    ensures var matchTick := (last + delta) % range;
      && NextMatch(range, from, matchTick) > from
      && (from < last + delta ==> NextMatch(range, from, matchTick) == last + delta)
      && (delta == 0 && from >= last ==> NextMatch(range, from, matchTick) == last + range)
      && (MatchIntervalPassed(last % range, readAt % range, matchTick) <==> 0 < delta <= readAt - last)
  {
    var matchTick := (last + delta) % range;
    NextMatchIsFirst(range, from, matchTick);
    if from < last + delta {
      NextMatchIs(range, from, last + delta);
    }
    if delta == 0 {
      ModPlusMultiple(last, 1, range);
      NextMatchIs(range, last, last + range);
      if from >= last {
        NextMatchIs(range, from, last + range);
      }
    } else {
      NextMatchIs(range, last, last + delta);
    }
    PassedIffCrossed(range, last, readAt, matchTick);
  }

  /** No lap of the counter is ever missed: along every timely run, however long and in whatever
      order, the clock ends exact at its last read, provided every event programmed for was at
      least one tick away. */
  lemma {:induction false} NoLapMissed(r: Run, start: nat, trace: seq<Access>, firesOnEqual: bool)
    requires Tracking(r, start)
    requires Timely(r, trace, firesOnEqual) && AllReachable(r, trace, firesOnEqual)
    ensures Tracking(After(r, trace, firesOnEqual), start)
    decreases |trace|
  {
    if trace != [] {
      StepTracks(r, start, trace[0], firesOnEqual);
      NoLapMissed(Next(r, trace[0], firesOnEqual), start, trace[1..], firesOnEqual);
    }
  }

  /** At 1 MHz or more every future event is at least one tick away. */
  lemma {:induction false} FastTickersReachAll(r: Run, trace: seq<Access>, firesOnEqual: bool)
    requires r.clock.frequency >= MICROS
    ensures AllReachable(r, trace, firesOnEqual)
    decreases |trace|
  {
    if trace != [] {
      if trace[0].Program? && trace[0].head.Some? && trace[0].head.value > r.clock.presentTime {
        MulLe(1, trace[0].head.value - r.clock.presentTime, r.clock.frequency);
      }
      FastTickersReachAll(Next(r, trace[0], firesOnEqual), trace[1..], firesOnEqual);
    }
  }

  lemma StepTracks(r: Run, start: nat, a: Access, firesOnEqual: bool)
    requires Tracking(r, start)
    requires Timely(r, [a], firesOnEqual) && AllReachable(r, [a], firesOnEqual)
    ensures Tracking(Next(r, a, firesOnEqual), start)
  {
    match a
    case Sync(tick) =>
      SyncCounts(r.clock, r.last - start, r.last, tick);
      SmallDivMod(tick - r.last, r.clock.Range());
    case Program(head, setAt, readAt, doneAt) =>
      DueTickWithin(r.clock, r.last, head, setAt, readAt, doneAt, firesOnEqual);
  }

  /** `initialize` sets out tracking, at the frequency and width that the hardware reports, if it reports
      any that a ticker can have. */
  lemma StartedTracks(frequency: nat, bits: nat, tick: nat)
    requires frequency < TWO_32
    ensures var c := Started(frequency, bits, tick % Pow2(UsableBits(bits)));
      && Tracking(Run(c, tick, tick), tick)
      && (0 < frequency ==> c.frequency == frequency)
      && (4 <= bits <= 32 ==> c.bits == bits)
  {
    var f, b := UsableFrequency(frequency), UsableBits(bits);
    var maxDelta := 7 * Pow2(b - 4);
    DivBounds(maxDelta * MICROS + f - 1, f);
    SmallDivMod(0, f);
  }

  /** The converse: when the head is not reachable, however the reprogramming went, the interrupt comes
      a whole lap after the last read, and the read it makes, although in time, leaves the clock a
      lap behind. */
  lemma UnreachableMissesLap(r: Run, start: nat, a: Access, firesOnEqual: bool)
    requires Tracking(r, start) && a.Program? && Timely(r, [a], firesOnEqual)
    requires !Reachable(r.clock, r.last, a.head, a.setAt, firesOnEqual)
    requires MICROS * (r.last + r.clock.Range() - start) / r.clock.frequency < TWO_64
    ensures var trace := [a, Sync(r.last + r.clock.Range())];
      && Next(r, a, firesOnEqual).due == r.last + r.clock.Range()
      && Timely(r, trace, firesOnEqual)
      && !Exact(After(r, trace, firesOnEqual).clock, r.last + r.clock.Range() - start)
  {
    var c, tick := r.clock, r.last + r.clock.Range();
    RangeFacts(c.bits);
    DueTickOfEvent(c, r.last, a.head.value, a.setAt, a.readAt, a.doneAt, firesOnEqual);
    SyncExactIff(c, start, r.last, tick);
    UnfoldTwo(r, a, Sync(tick), firesOnEqual);
  }

  /** After a reprogramming, every timely read leaves the clock exact if and only if the head was
      reachable. */
  lemma ExactNextIff(r: Run, start: nat, a: Access, firesOnEqual: bool)
    requires Tracking(r, start) && a.Program? && Timely(r, [a], firesOnEqual)
    requires MICROS * (r.last + r.clock.Range() - start) / r.clock.frequency < TWO_64
    ensures Reachable(r.clock, r.last, a.head, a.setAt, firesOnEqual) <==>
      forall tick: nat :: start <= tick && Timely(r, [a, Sync(tick)], firesOnEqual) ==>
        Exact(After(r, [a, Sync(tick)], firesOnEqual).clock, tick - start)
  {
    if Reachable(r.clock, r.last, a.head, a.setAt, firesOnEqual) {
      forall tick: nat | start <= tick && Timely(r, [a, Sync(tick)], firesOnEqual)
        ensures Exact(After(r, [a, Sync(tick)], firesOnEqual).clock, tick - start)
      {
        UnfoldTwo(r, a, Sync(tick), firesOnEqual);
        NoLapMissed(r, start, [a, Sync(tick)], firesOnEqual);
      }
    } else {
      UnreachableMissesLap(r, start, a, firesOnEqual);
    }
  }

  /** Below 1 MHz there are such heads on every ticker that does not fire on an equal match: an event
      one microsecond ahead. */
  lemma SlowTickerMissesLap(r: Run, start: nat)
    requires Tracking(r, start) && r.clock.frequency < MICROS
    requires MICROS * (r.last + r.clock.Range() - start) / r.clock.frequency < TWO_64 - 1
    ensures var trace := [Program(Some(r.clock.presentTime + 1), r.last, r.last, r.last),
                         Sync(r.last + r.clock.Range())];
      && Timely(r, trace, false)
      && !Exact(After(r, trace, false).clock, r.last + r.clock.Range() - start)
  {
    var a := Program(Some(r.clock.presentTime + 1), r.last, r.last, r.last);
    ShownBeforeHorizon(r.clock, r.last - start, r.last + r.clock.Range() - start);
    RangeFacts(r.clock.bits);
    UnreachableMissesLap(r, start, a, false);
  }

  lemma ShownBeforeHorizon(c: Clock, ticks: nat, later: nat)
    requires c.frequency > 0 && Exact(c, ticks) && ticks <= later
    requires MICROS * later / c.frequency < TWO_64 - 1
    ensures c.presentTime + 1 < TWO_64
  {
    DivMonotone(MICROS * ticks, MICROS * later, c.frequency);
    FitsU64(MICROS * ticks / c.frequency);
  }

  lemma UnfoldTwo(r: Run, a: Access, b: Access, firesOnEqual: bool)
    requires r.clock.frequency > 0
    ensures var r1 := Next(r, a, firesOnEqual);
      && After(r, [a, b], firesOnEqual) == Next(r1, b, firesOnEqual)
      && (Timely(r, [a, b], firesOnEqual) <==> Timely(r, [a], firesOnEqual) && Timely(r1, [b], firesOnEqual))
      && (AllReachable(r, [a], firesOnEqual) && AllReachable(r1, [b], firesOnEqual) ==>
            AllReachable(r, [a, b], firesOnEqual))
  {
    var r1 := Next(r, a, firesOnEqual);
    assert [a, b][1..] == [b] && [a][1..] == [] && [b][1..] == [];
    assert After(r, [a, b], firesOnEqual) == After(r1, [b], firesOnEqual);
    assert After(r1, [b], firesOnEqual) == After(Next(r1, b, firesOnEqual), [], firesOnEqual);
  }

  lemma {:induction false} AfterAppend(r: Run, trace: seq<Access>, a: Access, firesOnEqual: bool)
    requires r.clock.frequency > 0
    ensures After(r, trace + [a], firesOnEqual) == Next(After(r, trace, firesOnEqual), a, firesOnEqual)
    decreases |trace|
  {
    if trace == [] {
      assert (trace + [a])[1..] == [];
    } else {
      assert (trace + [a])[1..] == trace[1..] + [a];
      AfterAppend(Next(r, trace[0], firesOnEqual), trace[1..], a, firesOnEqual);
    }
  }

  /** The clock never runs ahead of true time, even if laps are missed. */
  ghost predicate Behind(c: Clock, ticks: nat) {
    c.presentTime * c.frequency + c.tickRemainder <= MICROS * ticks
  }

  lemma SyncStaysBehind(c: Clock, start: nat, last: nat, tick: nat)
    requires c.WellFormed() && start <= last <= tick && Behind(c, last - start)
    requires c.tickLastRead == last % c.Range()
    requires MICROS * (tick - start) / c.frequency < TWO_64
    ensures var c' := Synced(c, tick % c.Range());
      && c'.WellFormed() && c'.tickLastRead == tick % c.Range()
      && Behind(c', tick - start)
      && c.presentTime <= c'.presentTime <= MICROS * (tick - start) / c.frequency
  {
    ModSub(tick, last, c.Range());
    ModAtMost(tick - last, c.Range());
    var more := ((tick - last) % c.Range()) * MICROS;
    CountedWhole(c.presentTime, c.tickRemainder, c.frequency, more, MICROS * (tick - start));
    FitsU64(c.presentTime + (more + c.tickRemainder) / c.frequency);
  }

  lemma CountedWhole(present: nat, remainder: nat, f: nat, more: nat, limit: nat)
    requires f > 0 && present * f + remainder + more <= limit
    ensures var total := more + remainder;
      && (present + total / f) * f + total % f <= limit
      && present <= present + total / f <= limit / f
  {
    var total := more + remainder;
    DivModRebuilds(total, f);
    assert (present + total / f) * f == present * f + (total / f) * f;
    DivAtLeast(limit, f, present + total / f);
    DivAtLeast(total, f, 0);
  }

  /** Largest time that can be shown at true tick `lastTick` or before. */
  function Horizon(o: Run, lastTick: nat): nat
    requires o.clock.frequency > 0
  {
    MICROS * lastTick / o.clock.frequency
  }

  /** The trace starts at `initialize`, runs forward, and ends by `lastTick`, before the 64-bit
      microsecond count wraps. */
  ghost predicate Sound(o: Run, trace: seq<Access>, firesOnEqual: bool, lastTick: nat)
    requires o.clock.frequency > 0
    decreases |trace|
  {
    if trace == [] then
      Tracking(o, o.last) && o.last <= lastTick && Horizon(o, lastTick) < TWO_64
    else
      var earlier, a := trace[..|trace| - 1], trace[|trace| - 1];
      && Sound(o, earlier, firesOnEqual, lastTick)
      && (a.Sync? ==> After(o, earlier, firesOnEqual).last <= a.tick <= lastTick)
  }

  /** What holds of the clock after any sound trace, whether or not laps were missed. */
  ghost predicate Sane(o: Run, r: Run, lastTick: nat)
    requires o.clock.frequency > 0
  {
    && r.clock.WellFormed() && r.clock.frequency == o.clock.frequency && r.clock.bits == o.clock.bits
    && r.clock.tickLastRead == r.last % r.clock.Range()
    && o.last <= r.last <= lastTick
    && Behind(r.clock, r.last - o.last)
    && r.clock.presentTime <= Horizon(o, lastTick) < TWO_64
  }

  lemma {:induction false} SoundIsSane(o: Run, trace: seq<Access>, firesOnEqual: bool, lastTick: nat)
    requires o.clock.frequency > 0 && Sound(o, trace, firesOnEqual, lastTick)
    ensures Sane(o, After(o, trace, firesOnEqual), lastTick)
    decreases |trace|
  {
    if trace == [] {
      StartIsSane(o, lastTick);
    } else {
      var earlier, a := trace[..|trace| - 1], trace[|trace| - 1];
      assert trace == earlier + [a];
      SoundIsSane(o, earlier, firesOnEqual, lastTick);
      AfterAppend(o, earlier, a, firesOnEqual);
      if a.Sync? {
        SyncIsSane(o, After(o, earlier, firesOnEqual), a.tick, lastTick);
      }
    }
  }

  lemma StartIsSane(o: Run, lastTick: nat)
    requires Tracking(o, o.last) && o.last <= lastTick && Horizon(o, lastTick) < TWO_64
    ensures Sane(o, o, lastTick)
  {
    SmallDivMod(0, o.clock.frequency);
    DivAtLeast(MICROS * lastTick, o.clock.frequency, 0);
  }

  lemma SyncIsSane(o: Run, r: Run, tick: nat, lastTick: nat)
    requires o.clock.frequency > 0 && Sane(o, r, lastTick) && r.last <= tick <= lastTick
    ensures Sane(o, r.(clock := Synced(r.clock, tick % r.clock.Range()), last := tick), lastTick)
    ensures r.clock.presentTime <= Synced(r.clock, tick % r.clock.Range()).presentTime
  {
    DivMonotone(MICROS * (tick - o.last), MICROS * lastTick, o.clock.frequency);
    SyncStaysBehind(r.clock, o.last, r.last, tick);
  }

  lemma {:induction false} SoundFromStart(o: Run, trace: seq<Access>, firesOnEqual: bool, lastTick: nat)
    requires o.clock.frequency > 0 && Sound(o, trace, firesOnEqual, lastTick)
    ensures Tracking(o, o.last) && Horizon(o, lastTick) < TWO_64
    decreases |trace|
  {
    if trace != [] {
      SoundFromStart(o, trace[..|trace| - 1], firesOnEqual, lastTick);
    }
  }

  /** In a sound, timely trace the clock shows exactly the whole microseconds since the start. */
  lemma TimelyIsExact(o: Run, trace: seq<Access>, firesOnEqual: bool, lastTick: nat)
    requires o.clock.frequency > 0 && Sound(o, trace, firesOnEqual, lastTick)
    requires Timely(o, trace, firesOnEqual) && AllReachable(o, trace, firesOnEqual)
    ensures var r := After(o, trace, firesOnEqual);
      o.last <= r.last && r.clock.presentTime == MICROS * (r.last - o.last) / o.clock.frequency
  {
    SoundFromStart(o, trace, firesOnEqual, lastTick);
    SoundIsSane(o, trace, firesOnEqual, lastTick);
    NoLapMissed(o, o.last, trace, firesOnEqual);
    ExactBeforeHorizon(After(o, trace, firesOnEqual).clock, After(o, trace, firesOnEqual).last - o.last, lastTick);
  }

  lemma ExactBeforeHorizon(c: Clock, ticks: nat, lastTick: nat)
    requires c.frequency > 0 && Exact(c, ticks) && ticks <= lastTick && MICROS * lastTick / c.frequency < TWO_64
    ensures c.presentTime == MICROS * ticks / c.frequency
  {
    DivMonotone(MICROS * ticks, MICROS * lastTick, c.frequency);
    FitsU64(MICROS * ticks / c.frequency);
  }
}
