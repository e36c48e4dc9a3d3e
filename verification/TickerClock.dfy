/** The clock half of `ticker_event_queue_t`: a wrapping hardware counter of 4 to 32 bits,
    at any frequency, turned into a 64-bit microsecond count.

    The hardware is an unbounded count of true ticks that software sees modulo `Range()`. */
module TickerClock {
  import opened Prelude

  const MICROS: nat := 1_000_000

  datatype Clock = Clock(
    frequency: nat,
    bits: nat,
    maxDelta: nat,
    maxDeltaUs: nat,
    tickLastRead: nat,
    tickRemainder: nat,
    presentTime: nat)
  {
    /** The counter's modulus; the C field `bitmask` is one less. */
    function Range(): nat {
      Pow2(bits)
    }

    ghost predicate WellFormed() {
      && 1 <= frequency < TWO_32
      && 4 <= bits <= 32
      && maxDelta == 7 * Pow2(bits - 4)
      && maxDelta * MICROS <= maxDeltaUs * frequency < maxDelta * MICROS + frequency
      && tickLastRead < Range()
      && tickRemainder < frequency
      && presentTime < TWO_64
    }
  }

  /** The frequency and width `initialize` works with: what the hardware reports, or defaults once its
      assertions are compiled out. */
  function UsableFrequency(frequency: nat): (f: nat)
    ensures f > 0 && (frequency > 0 ==> f == frequency)
  {
    if frequency == 0 then MICROS else frequency
  }

  function UsableBits(bits: nat): (b: nat)
    ensures 4 <= b <= 32 && (4 <= bits <= 32 ==> b == bits)
  {
    if bits > 32 || bits < 4 then 32 else bits
  }

  function Started(frequency: nat, bits: nat, reading: nat): Clock {
    var f := UsableFrequency(frequency);
    var b := UsableBits(bits);
    var maxDelta := 7 * Pow2(b - 4);
    Clock(f, b, maxDelta, (maxDelta * MICROS + f - 1) / f, reading, 0, 0)
  }

  /** One `update_present_time`, in closed form: the carried remainder makes the three branches
      of the C code a single division. */
  function Synced(c: Clock, reading: nat): Clock
    requires c.frequency > 0
  {
    var total := ((reading - c.tickLastRead) % c.Range()) * MICROS + c.tickRemainder;
    c.(tickLastRead := reading,
       tickRemainder := total % c.frequency,
       presentTime := U64(c.presentTime + total / c.frequency))
  }

  // ---------------------------------------------------------------- counter ranges

  lemma Pow2Values()
    ensures Pow2(4) == 16 && Pow2(16) == 65536 && Pow2(32) == TWO_32
  {
    assert Pow2(4) == 16;
    Pow2Adds(4, 4);
    assert Pow2(8) == 256;
    Pow2Adds(8, 8);
    assert Pow2(16) == 65536;
    Pow2Adds(16, 16);
  }

  lemma RangeFacts(bits: nat)
    requires 4 <= bits <= 32
    ensures Pow2(bits) == 16 * Pow2(bits - 4)
    ensures Pow2(32 - bits) * Pow2(bits) == TWO_32
    ensures 16 <= Pow2(bits) <= TWO_32
  {
    Pow2Values();
    Pow2Adds(4, bits - 4);
    Pow2Adds(32 - bits, bits);
    MulLe(1, Pow2(32 - bits), Pow2(bits));
  }

  /** A 32-bit operation followed by `& bitmask` is arithmetic modulo the counter's range. */
  lemma MaskIsModulo(x: int, bits: nat)
    requires 4 <= bits <= 32
    ensures U32(x) % Pow2(bits) == x % Pow2(bits)
  {
    RangeFacts(bits);
    ModMod(x, Pow2(bits), Pow2(32 - bits));
  }

  // ---------------------------------------------------------------- exact time

  /** The clock shows exactly `ticks` true ticks of elapsed time: whole microseconds in
      `presentTime` (which wraps at 64 bits) and the rest in the remainder. */
  ghost predicate Exact(c: Clock, ticks: nat)
    requires c.frequency > 0
  {
    && c.presentTime == U64(MICROS * ticks / c.frequency)
    && c.tickRemainder == MICROS * ticks % c.frequency
  }

  /** Reading the counter `ticks` true ticks after the last read, in a clock that has so far
      counted `counted` ticks, counts `ticks` modulo the range more, and loses nothing of them. */
  lemma SyncCounts(c: Clock, counted: nat, last: nat, tick: nat)
    requires c.WellFormed() && Exact(c, counted)
    requires c.tickLastRead == last % c.Range() && last <= tick
    ensures var c' := Synced(c, tick % c.Range());
      && c'.WellFormed()
      && c'.tickLastRead == tick % c.Range()
      && Exact(c', counted + (tick - last) % c.Range())
  {
    var elapsed := (tick - last) % c.Range();
    ModSub(tick, last, c.Range());
    DivCarry(MICROS * counted, MICROS * elapsed, c.frequency);
    assert MICROS * counted + MICROS * elapsed == MICROS * (counted + elapsed);
    AddedModulo(MICROS * counted / c.frequency, (MICROS * elapsed + c.tickRemainder) / c.frequency);
  }

  lemma AddedModulo(a: int, b: int)
    ensures U64(U64(a) + b) == U64(a + b)
  {
    U64IsModulo(a);
    U64IsModulo(U64(a) + b);
    U64IsModulo(a + b);
  }

  /** The time shown and the remainder together rebuild the tick count. */
  lemma ExactParts(c: Clock, ticks: nat) returns (us: nat)
    requires c.frequency > 0 && Exact(c, ticks) && MICROS * ticks / c.frequency < TWO_64
    ensures MICROS * ticks == us * c.frequency + c.tickRemainder
    ensures us == c.presentTime
  {
    us := MICROS * ticks / c.frequency;
    DivModRebuilds(MICROS * ticks, c.frequency);
    FitsU64(us);
  }

  /** Distinct tick counts never look alike before the 64-bit microsecond count wraps. */
  lemma ExactIsInjective(c: Clock, a: nat, b: nat)
    requires c.frequency > 0 && Exact(c, a) && Exact(c, b) && a <= b
    requires MICROS * b / c.frequency < TWO_64
    ensures a == b
  {
    DivMonotone(MICROS * a, MICROS * b, c.frequency);
    var usA := ExactParts(c, a);
    var usB := ExactParts(c, b);
  }

  /** A read keeps an exact clock exact if and only if less than one whole lap of the counter
      has passed since the previous read. */
  lemma SyncExactIff(c: Clock, start: nat, last: nat, tick: nat)
    requires c.WellFormed() && start <= last <= tick && Exact(c, last - start)
    requires c.tickLastRead == last % c.Range()
    requires MICROS * (tick - start) / c.frequency < TWO_64
    ensures Exact(Synced(c, tick % c.Range()), tick - start) <==> tick - last < c.Range()
  {
    var range := c.Range();
    var counted := last - start + (tick - last) % range;
    SyncCounts(c, last - start, last, tick);
    DivBounds(tick - last, range);
    if tick - last < range {
      DivModUnique(tick - last, range, 0, tick - last);
    } else if Exact(Synced(c, tick % range), tick - start) {
      ExactIsInjective(Synced(c, tick % range), counted, tick - start);
      assert false;
    }
  }

  // ---------------------------------------------------------------- scheduling

  /** The ticks to wait for an event `deltaUs` microseconds ahead, as `compute_tick` works them
      out in 32- and 64-bit arithmetic. */
  function TickDelta(c: Clock, deltaUs: nat): nat {
    if deltaUs > c.maxDeltaUs then
      c.maxDelta
    else if c.frequency == MICROS then
      Min(U32(deltaUs), c.maxDelta)
    else if c.frequency == 32768 then
      Min(U32(U64(deltaUs * 32768) / MICROS), c.maxDelta)
    else
      Min(U32(U64(deltaUs * c.frequency) / MICROS), c.maxDelta)
  }

  /** `compute_tick`: the counter value at which to interrupt for `timestamp`. */
  function ComputeTick(c: Clock, timestamp: nat): nat {
    U32(c.tickLastRead + TickDelta(c, U64(timestamp - c.presentTime))) % c.Range()
  }

  /** How many ticks ahead of the last read an event at `timestamp` should be scheduled. */
  function Delta(c: Clock, timestamp: nat): nat
    requires c.frequency > 0 && c.presentTime <= timestamp
  {
    Min(c.maxDelta, (timestamp - c.presentTime) * c.frequency / MICROS)
  }

  /** The overflow guard: when it passes, the product stays below 2^64 and the quotient below
      2^32; when it fails, the unclamped delta would have reached `maxDelta` anyway. */
  lemma GuardPreventsOverflow(c: Clock, deltaUs: nat)
    requires c.WellFormed()
    ensures deltaUs <= c.maxDeltaUs ==>
      deltaUs * c.frequency < TWO_64 && deltaUs * c.frequency / MICROS < TWO_32
    ensures deltaUs > c.maxDeltaUs ==> deltaUs * c.frequency / MICROS >= c.maxDelta
  {
    RangeFacts(c.bits);
    GuardedProduct(deltaUs, c.maxDeltaUs, c.frequency, c.maxDelta * MICROS);
    DivAtLeast(deltaUs * c.frequency, MICROS, c.maxDelta);
  }

  /** `limit` is the product's bound divided by the frequency and rounded up. */
  lemma GuardedProduct(deltaUs: nat, limit: nat, frequency: nat, bound: nat)
    requires bound <= limit * frequency < bound + frequency
    ensures deltaUs <= limit ==> deltaUs * frequency < bound + frequency
    ensures deltaUs > limit ==> deltaUs * frequency >= bound
  {
    if deltaUs <= limit {
      MulLe(deltaUs, limit, frequency);
    } else {
      MulLe(limit + 1, deltaUs, frequency);
    }
  }

  /** The guarded three-branch code computes the last read plus the clamped exact delta, for
      every future timestamp, frequency and width. */
  lemma ComputeTickIsClampedDelta(c: Clock, timestamp: nat)
    requires c.WellFormed() && c.presentTime <= timestamp < TWO_64
    ensures ComputeTick(c, timestamp)
         == (c.tickLastRead + Delta(c, timestamp)) % c.Range()
  {
    TickDeltaIsClamped(c, timestamp - c.presentTime);
    MaskIsModulo(c.tickLastRead + Delta(c, timestamp), c.bits);
  }

  lemma TickDeltaIsClamped(c: Clock, deltaUs: nat)
    requires c.WellFormed()
    ensures TickDelta(c, deltaUs) == Min(c.maxDelta, deltaUs * c.frequency / MICROS)
  {
    GuardPreventsOverflow(c, deltaUs);
    if deltaUs <= c.maxDeltaUs {
      WordsHoldQuotient(deltaUs * c.frequency);
      if c.frequency == MICROS {
        WordsHoldQuotient(deltaUs * MICROS);
      } else if c.frequency == 32768 {
        WordsHoldQuotient(deltaUs * 32768);
      }
    }
  }

  lemma WordsHoldQuotient(product: nat)
    ensures product < TWO_64 && product / MICROS < TWO_32 ==>
      U32(U64(product) / MICROS) == product / MICROS
  {
  }

  /** `due` is the first tick count at which the clock can show `timestamp`. */
  predicate FirstShowing(frequency: nat, timestamp: nat, due: nat) {
    timestamp * frequency <= MICROS * due && (due == 0 || MICROS * (due - 1) < timestamp * frequency)
  }

  lemma FirstShowingMeaning(frequency: nat, timestamp: nat, due: nat)
    requires frequency > 0
    ensures FirstShowing(frequency, timestamp, due) <==>
      MICROS * due / frequency >= timestamp && (due == 0 || MICROS * (due - 1) / frequency < timestamp)
  {
    DivAtLeast(MICROS * due, frequency, timestamp);
    if due > 0 {
      DivAtLeast(MICROS * (due - 1), frequency, timestamp);
    }
  }

  /** Accuracy: with an exact clock at true tick `last`, let `due` be the first true tick at
      which the clock can show `timestamp`. Unless clamped, the programmed tick is at most one
      before `due`, and later by less than `frequency / 1000000` ticks; so it is never late at
      1 MHz or below. */
  lemma ScheduledTickAccuracy(c: Clock, start: nat, last: nat, timestamp: nat, due: nat)
    requires c.WellFormed() && start <= last && Exact(c, last - start)
    requires MICROS * (last - start) / c.frequency < TWO_64 && c.presentTime <= timestamp
    requires start <= due && FirstShowing(c.frequency, timestamp, due - start)
    requires Delta(c, timestamp) < c.maxDelta
    ensures due <= last + Delta(c, timestamp) + 1
    ensures (last + Delta(c, timestamp) - due) * MICROS < c.frequency
    ensures c.frequency <= MICROS ==> last + Delta(c, timestamp) <= due
  {
    var now := ExactParts(c, last - start);
    ScheduledTickBounds(c.frequency, now, c.tickRemainder, last - start, timestamp, due - start);
  }

  lemma ScheduledTickBounds(f: nat, now: nat, remainder: nat, elapsed: nat, timestamp: nat, due: nat)
    requires MICROS * elapsed == now * f + remainder && remainder < f && now <= timestamp
    requires FirstShowing(f, timestamp, due)
    ensures var delta := (timestamp - now) * f / MICROS;
      && due <= elapsed + delta + 1
      && (elapsed + delta - due) * MICROS < f
  {
    assert timestamp * f == now * f + (timestamp - now) * f;
  }

  /** `_ticker_match_interval_passed`. */
  predicate MatchIntervalPassed(prevTick: nat, curTick: nat, matchTick: nat) {
    if matchTick > prevTick then
      curTick >= matchTick || curTick < prevTick
    else
      curTick < prevTick && curTick >= matchTick
  }

  /** The first true tick after `prev` at which the counter shows `matchTick`. */
  function NextMatch(range: nat, prev: int, matchTick: nat): int
    requires range > 0
  {
    prev + 1 + (matchTick - prev - 1) % range
  }

  lemma NextMatchIsFirst(range: nat, prev: int, matchTick: nat)
    requires matchTick < range
    ensures var t := NextMatch(range, prev, matchTick);
      && prev < t <= prev + range && t % range == matchTick
      && forall u: int :: prev < u < t ==> u % range != matchTick
  {
    var t := NextMatch(range, prev, matchTick);
    ModAdd(matchTick - prev - 1, prev + 1, range);
    SmallDivMod(matchTick, range);
    forall u: int | prev < u < t ensures u % range != matchTick {
      if u % range == matchTick {
        LapApart(range, u, t);
      }
    }
  }

  /** Two ticks at which the counter shows the same value are at least a lap apart. */
  lemma LapApart(range: nat, a: int, b: int)
    requires 0 < range && a < b && a % range == b % range
    ensures b - a >= range
  {
    DivModRebuilds(a, range);
    DivModRebuilds(b, range);
    var laps := b / range - a / range;
    assert laps * range == b - a;
    if b - a < range {
      NoMultipleBetween(laps, range);
    }
  }

  /** For every range, with less than a lap between the two reads, the comparison says exactly
      whether the counter took the match value at some true tick after the first read and no
      later than the second. */
  lemma PassedIffCrossed(range: nat, prev: nat, cur: nat, matchTick: nat)
    requires prev <= cur < prev + range && matchTick < range
    ensures MatchIntervalPassed(prev % range, cur % range, matchTick)
       <==> NextMatch(range, prev, matchTick) <= cur
    ensures MatchIntervalPassed(prev % range, cur % range, matchTick)
       <==> exists t: nat :: prev < t <= cur && t % range == matchTick
  {
    var next := NextMatch(range, prev, matchTick);
    NextMatchIsFirst(range, prev, matchTick);
    OffsetWithinLap(range, prev, next);
    OffsetWithinLap(range, prev, cur);
  }

  /** Where a tick at most one lap ahead of `prev` stands in the counter. */
  lemma OffsetWithinLap(range: nat, prev: nat, tick: nat)
    requires 0 < range && prev <= tick <= prev + range
    ensures var p, d := prev % range, tick - prev;
      tick % range == (if p + d < range then p + d else if p + d < 2 * range then p + d - range else 0)
  {
    var p, d := prev % range, tick - prev;
    ModAdd(prev, d, range);
    DivModUnique(p + d, range, if p + d < range then 0 else 1, if p + d < range then p + d else p + d - range);
  }

  /** `convert_timestamp`: a 32-bit timestamp placed on the 64-bit time line. */
  function ConvertTimestamp(ref: nat, timestamp: nat): nat {
    var overflow := timestamp < U32(ref);
    var result := ref - U32(ref) + timestamp;
    if overflow then U64(result + TWO_32) else result
  }

  /** The conversion is the only time in the 2^32 microseconds from `ref` on whose low 32 bits
      are the timestamp. */
  lemma ConvertTimestampUnique(ref: nat, timestamp: nat, t: nat)
    requires ref + TWO_32 < TWO_64 && timestamp < TWO_32
    ensures t == ConvertTimestamp(ref, timestamp) <==>
      ref <= t < ref + TWO_32 && U32(t) == timestamp
  {
  }
}
