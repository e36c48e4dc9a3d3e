/** Tickers and Timeouts over the event queue: attaching, detaching, and the handler that puts a
    periodic event back before calling its function. */
module PeriodicTickers {
  import opened Prelude
  import opened EventQueue

  /** One attached object: `calls` are the timestamps its handler has run for since it was
      attached at queue time `start`. A Ticker `repeats`; a Timeout does not. */
  datatype Timing = Timing(start: nat, period: nat, repeats: bool, calls: seq<nat>) {
    function NextCall(): nat {
      start + (|calls| + 1) * period
    }
  }

  datatype System<Id> = System(
    now: nat,
    queue: seq<Entry<Id>>,
    serial: nat,
    timings: map<Id, Timing>)

  datatype Event<Id> =
    | Advance(now: nat)
    | Attach(id: Id, period: nat, repeats: bool)
    | Detach(id: Id)
    | Fire

  /** `insert_absolute`: the 64-bit timestamp may wrap. */
  function Put<Id>(s: System<Id>, id: Id, timestamp: nat): System<Id> {
    s.(queue := Inserted(s.queue, Entry(id, U64(timestamp), s.serial)), serial := s.serial + 1)
  }

  predicate Due<Id>(s: System<Id>) {
    s.queue != [] && s.queue[0].timestamp <= s.now
  }

  function Next<Id(==)>(s: System<Id>, e: Event<Id>): System<Id> {
    match e
    case Advance(now) => s.(now := now)
    case Attach(id, period, repeats) =>
      var s' := s.(queue := Without(s.queue, id), timings := s.timings[id := Timing(s.now, period, repeats, [])]);
      Put(s', id, s.now + period)
    case Detach(id) => s.(queue := Without(s.queue, id), timings := s.timings - {id})
    case Fire => if Due(s) then Dispatched(s) else s
  }

  /** The handler, called with `e` already off the queue. */
  function Called<Id(==)>(s: System<Id>, e: Entry<Id>): System<Id> {
    if e.id in s.timings then
      var t := s.timings[e.id];
      var s' := s.(timings := s.timings[e.id := t.(calls := t.calls + [e.timestamp])]);
      if t.repeats then Put(s', e.id, e.timestamp + t.period) else s'
    else
      s
  }

  /** One iteration of the interrupt loop on a due event. */
  function Dispatched<Id(==)>(s: System<Id>): System<Id>
    requires Due(s)
  {
    Called(s.(queue := s.queue[1..]), s.queue[0])
  }

  function After<Id(==)>(s: System<Id>, events: seq<Event<Id>>): System<Id>
    decreases |events|
  {
    if events == [] then s else After(Next(s, events[0]), events[1..])
  }

  /** Time runs forward, and no timestamp is asked for beyond the 64-bit horizon. */
  ghost predicate Allowed<Id>(s: System<Id>, e: Event<Id>) {
    match e
    case Advance(now) => s.now <= now
    case Attach(id, period, repeats) => s.now + period < TWO_64
    case Detach(id) => true
    case Fire =>
      Due(s) && s.queue[0].id in s.timings && s.timings[s.queue[0].id].repeats ==>
        s.queue[0].timestamp + s.timings[s.queue[0].id].period < TWO_64
  }

  ghost predicate AllAllowed<Id>(s: System<Id>, events: seq<Event<Id>>)
    decreases |events|
  {
    events != [] ==> Allowed(s, events[0]) && AllAllowed(Next(s, events[0]), events[1..])
  }

  ghost predicate Pending<Id>(q: seq<Entry<Id>>, id: Id, timestamp: nat) {
    exists k :: 0 <= k < |q| && q[k].id == id && q[k].timestamp == timestamp
  }

  /** Every call so far was for a multiple of the period after the attachment, none is missing,
      and none came early. */
  ghost predicate CalledOnTime(t: Timing, now: nat) {
    && (forall i :: 0 <= i < |t.calls| ==> t.calls[i] == t.start + (i + 1) * t.period)
    && t.start + |t.calls| * t.period <= now
    && (!t.repeats ==> |t.calls| <= 1)
  }

  /** The next call is queued, if there is to be one. */
  ghost predicate Awaited<Id>(t: Timing, id: Id, q: seq<Entry<Id>>) {
    if t.repeats || t.calls == [] then Pending(q, id, t.NextCall()) else !Queued(q, id)
  }

  ghost predicate OnSchedule<Id>(t: Timing, id: Id, q: seq<Entry<Id>>, now: nat) {
    CalledOnTime(t, now) && Awaited(t, id, q)
  }

  ghost predicate WellQueued<Id>(q: seq<Entry<Id>>, serial: nat) {
    && Sorted(q)
    && DistinctIds(q)
    && (forall i :: 0 <= i < |q| ==> q[i].serial < serial)
  }

  ghost predicate Inv<Id>(s: System<Id>) {
    WellQueued(s.queue, s.serial) && forall id :: id in s.timings ==> OnSchedule(s.timings[id], id, s.queue, s.now)
  }

  // ---------------------------------------------------------------- the queue under each event

  lemma PendingInserted<Id>(q: seq<Entry<Id>>, e: Entry<Id>, id: Id, timestamp: nat)
    requires Pending(q, id, timestamp) || (id == e.id && timestamp == e.timestamp)
    ensures Pending(Inserted(q, e), id, timestamp)
  {
    var r, k := Inserted(q, e), Rank(q, e.timestamp);
    if Pending(q, id, timestamp) {
      var i :| 0 <= i < |q| && q[i].id == id && q[i].timestamp == timestamp;
      assert r[if i < k then i else i + 1] == q[i];
    } else {
      assert r[k] == e;
    }
  }

  lemma AwaitedInserted<Id>(t: Timing, id: Id, q: seq<Entry<Id>>, e: Entry<Id>)
    requires Awaited(t, id, q) && id != e.id
    ensures Awaited(t, id, Inserted(q, e))
  {
    if Pending(q, id, t.NextCall()) {
      PendingInserted(q, e, id, t.NextCall());
    }
  }

  lemma AwaitedWithout<Id>(t: Timing, id: Id, q: seq<Entry<Id>>, k: nat)
    requires Awaited(t, id, q) && k < |q| && q[k].id != id
    ensures Awaited(t, id, q[..k] + q[k + 1..])
  {
    if Pending(q, id, t.NextCall()) {
      var i :| 0 <= i < |q| && q[i].id == id && q[i].timestamp == t.NextCall();
      assert (q[..k] + q[k + 1..])[if i < k then i else i - 1] == q[i];
    }
  }

  lemma AwaitedWithoutOther<Id>(t: Timing, id: Id, q: seq<Entry<Id>>, gone: Id)
    requires Awaited(t, id, q) && id != gone
    ensures Awaited(t, id, Without(q, gone))
  {
    var k := IndexOf(q, gone);
    if k < |q| {
      AwaitedWithout(t, id, q, k);
    }
  }

  lemma AwaitedTail<Id>(t: Timing, id: Id, q: seq<Entry<Id>>)
    requires Awaited(t, id, q) && q != [] && q[0].id != id
    ensures Awaited(t, id, q[1..])
  {
    AwaitedWithout(t, id, q, 0);
    assert q[..0] + q[1..] == q[1..];
  }

  lemma WithoutWellQueued<Id>(q: seq<Entry<Id>>, serial: nat, id: Id)
    requires WellQueued(q, serial)
    ensures WellQueued(Without(q, id), serial) && !Queued(Without(q, id), id)
  {
    if IndexOf(q, id) < |q| {
      RemovedKeepsOrder(q, IndexOf(q, id));
    } else {
      AbsentIsUntouched(q, id);
    }
  }

  lemma InsertedWellQueued<Id>(q: seq<Entry<Id>>, id: Id, timestamp: nat, serial: nat)
    requires WellQueued(q, serial) && !Queued(q, id)
    ensures WellQueued(Inserted(q, Entry(id, timestamp, serial)), serial + 1)
  {
    var e := Entry(id, timestamp, serial);
    InsertedSorted(q, e);
    InsertedDistinct(q, e);
  }

  lemma TailWellQueued<Id>(q: seq<Entry<Id>>, serial: nat)
    requires WellQueued(q, serial) && q != []
    ensures WellQueued(q[1..], serial) && !Queued(q[1..], q[0].id)
  {
  }

  lemma AttachKeepsInv<Id>(s: System<Id>, id: Id, period: nat, repeats: bool)
    requires Inv(s) && s.now + period < TWO_64
    ensures Inv(Next(s, Attach(id, period, repeats)))
  {
    AttachWellQueued(s, id, period, repeats);
    AttachOnSchedule(s, id, period, repeats);
    InvFrom(Next(s, Attach(id, period, repeats)));
  }

  lemma InvFrom<Id>(s: System<Id>)
    requires WellQueued(s.queue, s.serial)
    requires forall id :: id in s.timings ==> OnSchedule(s.timings[id], id, s.queue, s.now)
    ensures Inv(s)
  {
  }

  lemma PutMakes<Id>(s: System<Id>, id: Id, timestamp: nat)
    requires timestamp < TWO_64
    ensures Put(s, id, timestamp) ==
      System(s.now, Inserted(s.queue, Entry(id, timestamp, s.serial)), s.serial + 1, s.timings)
  {
  }

  lemma AttachMakes<Id>(s: System<Id>, id: Id, period: nat, repeats: bool)
    requires s.now + period < TWO_64
    ensures Next(s, Attach(id, period, repeats)) ==
      System(s.now, Inserted(Without(s.queue, id), Entry(id, s.now + period, s.serial)), s.serial + 1,
             s.timings[id := Timing(s.now, period, repeats, [])])
  {
    PutMakes(s.(queue := Without(s.queue, id), timings := s.timings[id := Timing(s.now, period, repeats, [])]),
             id, s.now + period);
  }

  lemma AttachWellQueued<Id>(s: System<Id>, id: Id, period: nat, repeats: bool)
    requires WellQueued(s.queue, s.serial) && s.now + period < TWO_64
    ensures var r := Next(s, Attach(id, period, repeats)); WellQueued(r.queue, r.serial)
  {
    AttachMakes(s, id, period, repeats);
    ReinsertedWellQueued(s.queue, s.serial, id, s.now + period);
  }

  lemma AttachOnSchedule<Id>(s: System<Id>, id: Id, period: nat, repeats: bool)
    requires s.now + period < TWO_64
    requires forall x :: x in s.timings ==> OnSchedule(s.timings[x], x, s.queue, s.now)
    ensures var r := Next(s, Attach(id, period, repeats));
      forall x :: x in r.timings ==> OnSchedule(r.timings[x], x, r.queue, r.now)
  {
    var r := Next(s, Attach(id, period, repeats));
    forall x | x in r.timings ensures OnSchedule(r.timings[x], x, r.queue, r.now) {
      AttachMakes(s, id, period, repeats);
      AttachKeepsSchedule(s, id, period, repeats, x);
    }
  }

  lemma ReinsertedWellQueued<Id>(q: seq<Entry<Id>>, serial: nat, id: Id, timestamp: nat)
    requires WellQueued(q, serial)
    ensures WellQueued(Inserted(Without(q, id), Entry(id, timestamp, serial)), serial + 1)
  {
    WithoutWellQueued(q, serial, id);
    InsertedWellQueued(Without(q, id), id, timestamp, serial);
  }

  lemma AttachKeepsSchedule<Id>(s: System<Id>, id: Id, period: nat, repeats: bool, x: Id)
    requires x != id ==> x in s.timings && OnSchedule(s.timings[x], x, s.queue, s.now)
    ensures OnSchedule(s.timings[id := Timing(s.now, period, repeats, [])][x], x,
                       Inserted(Without(s.queue, id), Entry(id, s.now + period, s.serial)), s.now)
  {
    if x == id {
      AttachedOnSchedule(s.now, period, repeats, id, Without(s.queue, id), s.serial);
    } else {
      ReattachedOther(s.timings[x], x, s.queue, Entry(id, s.now + period, s.serial));
    }
  }

  lemma AttachedOnSchedule<Id>(now: nat, period: nat, repeats: bool, id: Id, q: seq<Entry<Id>>, serial: nat)
    ensures OnSchedule(Timing(now, period, repeats, []), id, Inserted(q, Entry(id, now + period, serial)), now)
  {
    PendingInserted(q, Entry(id, now + period, serial), id, now + period);
    assert Timing(now, period, repeats, []).NextCall() == now + 1 * period;
  }

  lemma ReattachedOther<Id>(t: Timing, id: Id, q: seq<Entry<Id>>, e: Entry<Id>)
    requires Awaited(t, id, q) && id != e.id
    ensures Awaited(t, id, Inserted(Without(q, e.id), e))
  {
    AwaitedWithoutOther(t, id, q, e.id);
    AwaitedInserted(t, id, Without(q, e.id), e);
  }

  lemma DetachKeepsInv<Id>(s: System<Id>, id: Id)
    requires Inv(s)
    ensures Inv(Next(s, Detach(id)))
  {
    var r := Next(s, Detach(id));
    WithoutWellQueued(s.queue, s.serial, id);
    forall x | x in r.timings ensures OnSchedule(r.timings[x], x, r.queue, r.now) {
      AwaitedWithoutOther(s.timings[x], x, s.queue, id);
    }
  }

  lemma DispatchKeepsInv<Id>(s: System<Id>)
    requires Inv(s) && Due(s) && Allowed(s, Fire)
    ensures Inv(Dispatched(s))
  {
    var r := Dispatched(s);
    DispatchWellQueued(s);
    forall x | x in r.timings ensures OnSchedule(r.timings[x], x, r.queue, r.now) {
      if x == s.queue[0].id {
        CalledOnSchedule(s);
      } else {
        OthersOnSchedule(s, x);
      }
    }
  }

  lemma DispatchWellQueued<Id>(s: System<Id>)
    requires WellQueued(s.queue, s.serial) && Due(s)
    ensures WellQueued(Dispatched(s).queue, Dispatched(s).serial)
  {
    var e := s.queue[0];
    TailWellQueued(s.queue, s.serial);
    if e.id in s.timings && s.timings[e.id].repeats {
      InsertedWellQueued(s.queue[1..], e.id, U64(e.timestamp + s.timings[e.id].period), s.serial);
    }
  }

  lemma CalledOnSchedule<Id>(s: System<Id>)
    requires WellQueued(s.queue, s.serial) && Due(s) && Allowed(s, Fire)
    requires var id := s.queue[0].id; id in s.timings && OnSchedule(s.timings[id], id, s.queue, s.now)
    ensures var id, r := s.queue[0].id, Dispatched(s);
      OnSchedule(r.timings[id], id, r.queue, s.now)
  {
    var e, t := s.queue[0], s.timings[s.queue[0].id];
    HeadIsNextCall(s.queue, t, e.id);
    CallAddsPeriod(t, s.now);
    TailWellQueued(s.queue, s.serial);
    if t.repeats {
      PendingInserted(s.queue[1..], Entry(e.id, e.timestamp + t.period, s.serial), e.id, e.timestamp + t.period);
    }
  }

  lemma OthersOnSchedule<Id>(s: System<Id>, x: Id)
    requires Due(s) && Allowed(s, Fire)
    requires x in s.timings && x != s.queue[0].id && OnSchedule(s.timings[x], x, s.queue, s.now)
    ensures OnSchedule(Dispatched(s).timings[x], x, Dispatched(s).queue, s.now)
  {
    var e, t := s.queue[0], s.timings[x];
    AwaitedTail(t, x, s.queue);
    if e.id in s.timings && s.timings[e.id].repeats {
      AwaitedInserted(t, x, s.queue[1..], Entry(e.id, e.timestamp + s.timings[e.id].period, s.serial));
    }
  }

  /** A queued object has one entry, the one its schedule expects. */
  lemma HeadIsNextCall<Id>(q: seq<Entry<Id>>, t: Timing, id: Id)
    requires q != [] && DistinctIds(q) && q[0].id == id && Awaited(t, id, q)
    ensures t.repeats || t.calls == []
    ensures q[0].timestamp == t.NextCall()
  {
  }

  lemma CallAddsPeriod(t: Timing, now: nat)
    requires CalledOnTime(t, now) && t.NextCall() <= now && (t.repeats || t.calls == [])
    ensures var t' := t.(calls := t.calls + [t.NextCall()]);
      CalledOnTime(t', now) && t'.NextCall() == t.NextCall() + t.period
  {
    var n := |t.calls|;
    assert (n + 2) * t.period == (n + 1) * t.period + t.period;
  }

  // ---------------------------------------------------------------- drift-free periods

  lemma NextKeepsInv<Id>(s: System<Id>, e: Event<Id>)
    requires Inv(s) && Allowed(s, e)
    ensures Inv(Next(s, e))
  {
    match e
    case Advance(now) =>
    case Attach(id, period, repeats) => AttachKeepsInv(s, id, period, repeats);
    case Detach(id) => DetachKeepsInv(s, id);
    case Fire =>
      if Due(s) {
        DispatchKeepsInv(s);
      }
  }

  /** How often an object has been called by the time nothing is due. */
  ghost predicate Punctual(t: Timing, now: nat) {
    && (forall i :: 0 <= i < |t.calls| ==> t.calls[i] == t.start + (i + 1) * t.period)
    && (if t.repeats then
          t.period > 0 && t.start <= now && |t.calls| == (now - t.start) / t.period
        else
          |t.calls| == if t.start + t.period <= now then 1 else 0)
  }

  /** Drift-free periods: after any run of attachments, detachments, passing time and dispatches,
      of any number of Tickers and Timeouts, whatever the interrupt latency, once the interrupt
      loop finds nothing due every Ticker has been called exactly floor((now - start) / period)
      times, for the timestamps start + period, start + 2 * period, and so on. */
  lemma {:induction false} DriftFree<Id>(s: System<Id>, events: seq<Event<Id>>)
    requires Inv(s) && AllAllowed(s, events)
    ensures var r := After(s, events);
      && Inv(r)
      && (!Due(r) ==> forall id :: id in r.timings ==> Punctual(r.timings[id], r.now))
    decreases |events|
  {
    if events == [] {
      if !Due(s) {
        forall id | id in s.timings ensures Punctual(s.timings[id], s.now) {
          SettledIsPunctual(s, id);
        }
      }
    } else {
      NextKeepsInv(s, events[0]);
      DriftFree(Next(s, events[0]), events[1..]);
    }
  }

  lemma SettledIsPunctual<Id>(s: System<Id>, id: Id)
    requires Sorted(s.queue) && id in s.timings && OnSchedule(s.timings[id], id, s.queue, s.now) && !Due(s)
    ensures Punctual(s.timings[id], s.now)
  {
    var t := s.timings[id];
    if t.repeats || t.calls == [] {
      var k :| 0 <= k < |s.queue| && s.queue[k].id == id && s.queue[k].timestamp == t.NextCall();
      assert k == 0 || Before(s.queue[0], s.queue[k]);
      CountIsQuotient(s.now - t.start, t.period, |t.calls|);
    }
  }

  lemma CountIsQuotient(elapsed: int, period: nat, n: nat)
    requires n * period <= elapsed < (n + 1) * period
    ensures period > 0 && elapsed / period == n
  {
    assert (n + 1) * period == n * period + period;
    DivModUnique(elapsed, period, n, elapsed - n * period);
  }

  /** The 64-bit horizon is exactly what attaching needs: past it the timestamp wraps around and
      the first call is not awaited at start + period. */
  lemma AttachNeedsHorizon<Id>(s: System<Id>, id: Id, period: nat, repeats: bool)
    requires Inv(s)
    ensures Inv(Next(s, Attach(id, period, repeats))) <==> s.now + period < TWO_64
  {
    if s.now + period < TWO_64 {
      AttachKeepsInv(s, id, period, repeats);
    } else {
      var q, r := Without(s.queue, id), Next(s, Attach(id, period, repeats));
      WithoutWellQueued(s.queue, s.serial, id);
      var t := r.timings[id];
      assert t == Timing(s.now, period, repeats, []);
      assert t.NextCall() == s.now + period;
      assert forall k :: 0 <= k < |r.queue| && r.queue[k].id == id ==> r.queue[k].timestamp < TWO_64;
      assert !Pending(r.queue, id, t.NextCall());
    }
  }

  // ---------------------------------------------------------------- from attaching to detaching

  ghost predicate SameTiming<Id>(id: Id, a: map<Id, Timing>, b: map<Id, Timing>) {
    (id in a <==> id in b) && (id in a ==> a[id] == b[id])
  }

  /** Detaching takes the object off the queue and forgets it, and touches nothing else. */
  lemma DetachRemoves<Id>(s: System<Id>, id: Id)
    requires WellQueued(s.queue, s.serial)
    ensures var r := Next(s, Detach(id));
      && Gone(r, id)
      && (forall e: Entry<Id> :: e.id != id ==> (e in r.queue <==> e in s.queue))
      && |r.queue| == |s.queue| - (if Queued(s.queue, id) then 1 else 0)
      && (forall x :: x != id ==> SameTiming(x, s.timings, r.timings))
      && r.now == s.now
  {
    WithoutContents(s.queue, id);
  }

  /** The object is neither queued nor attached. */
  ghost predicate Gone<Id>(s: System<Id>, id: Id) {
    !Queued(s.queue, id) && id !in s.timings
  }

  ghost predicate NoAttachOf<Id>(events: seq<Event<Id>>, id: Id) {
    forall i :: 0 <= i < |events| && events[i].Attach? ==> events[i].id != id
  }

  ghost predicate NoDetachOf<Id>(events: seq<Event<Id>>, id: Id) {
    forall i :: 0 <= i < |events| && events[i].Detach? ==> events[i].id != id
  }

  lemma NextStaysGone<Id>(s: System<Id>, e: Event<Id>, id: Id)
    requires Gone(s, id) && (e.Attach? ==> e.id != id)
    ensures Gone(Next(s, e), id)
  {
    match e
    case Advance(_) =>
    case Attach(other, period, _) =>
      NotPutIn(Without(s.queue, other), Entry(other, U64(s.now + period), s.serial), id);
    case Detach(_) =>
    case Fire =>
      if Due(s) {
        DispatchedStaysGone(s, id);
      }
  }

  lemma DispatchedStaysGone<Id>(s: System<Id>, id: Id)
    requires Gone(s, id) && Due(s)
    ensures Gone(Dispatched(s), id)
  {
    var e := s.queue[0];
    if e.id in s.timings && s.timings[e.id].repeats {
      NotPutIn(s.queue[1..], Entry(e.id, U64(e.timestamp + s.timings[e.id].period), s.serial), id);
    }
  }

  lemma NotPutIn<Id>(q: seq<Entry<Id>>, e: Entry<Id>, id: Id)
    requires !Queued(q, id) && e.id != id
    ensures !Queued(Inserted(q, e), id)
  {
  }

  /** A detached object is never called again along any run that does not attach it: it stays gone, so at
      no point is it the head that is dispatched. */
  lemma {:induction false} StaysGone<Id>(s: System<Id>, events: seq<Event<Id>>, id: Id)
    requires Gone(s, id) && NoAttachOf(events, id)
    ensures Gone(After(s, events), id)
    decreases |events|
  {
    if events != [] {
      NextStaysGone(s, events[0], id);
      StaysGone(Next(s, events[0]), events[1..], id);
    }
  }

  lemma DetachedIsNotCalled<Id>(s: System<Id>, id: Id, events: seq<Event<Id>>, k: nat)
    requires WellQueued(s.queue, s.serial) && NoAttachOf(events, id) && k <= |events|
    ensures var r := After(Next(s, Detach(id)), events[..k]);
      Gone(r, id) && (Due(r) ==> r.queue[0].id != id)
  {
    DetachRemoves(s, id);
    StaysGone(Next(s, Detach(id)), events[..k], id);
  }

  /** The same attachment, with perhaps more calls. */
  ghost predicate Continues(a: Timing, b: Timing) {
    a.start == b.start && a.period == b.period && a.repeats == b.repeats && a.calls <= b.calls
  }

  lemma {:induction false} StaysAttached<Id>(s: System<Id>, events: seq<Event<Id>>, id: Id)
    requires id in s.timings && NoAttachOf(events, id) && NoDetachOf(events, id)
    ensures id in After(s, events).timings && Continues(s.timings[id], After(s, events).timings[id])
    decreases |events|
  {
    if events != [] {
      var s' := Next(s, events[0]);
      assert id in s'.timings && Continues(s.timings[id], s'.timings[id]);
      StaysAttached(s', events[1..], id);
    }
  }

  /** From attaching on, for as long as the object is left attached, whatever else is attached and detached
      and with any latency: once nothing is due, a Ticker attached at `s.now` was called exactly
      floor((now - s.now) / period) times, for the multiples of the period after `s.now`, and a Timeout
      once if its time has come. */
  lemma CalledFromAttach<Id>(s: System<Id>, id: Id, period: nat, repeats: bool, events: seq<Event<Id>>)
    requires Inv(s) && s.now + period < TWO_64 && AllAllowed(Next(s, Attach(id, period, repeats)), events)
    requires NoAttachOf(events, id) && NoDetachOf(events, id)
    ensures var r := After(Next(s, Attach(id, period, repeats)), events);
      id in r.timings && (!Due(r) ==> CalledSince(r.timings[id].calls, s.now, period, repeats, r.now))
  {
    var a := Next(s, Attach(id, period, repeats));
    AttachMakes(s, id, period, repeats);
    AttachKeepsInv(s, id, period, repeats);
    StaysAttached(a, events, id);
    DriftFree(a, events);
    assert a.timings[id] == Timing(s.now, period, repeats, []);
    if !Due(After(a, events)) {
      assert Punctual(After(a, events).timings[id], After(a, events).now);
    }
  }

  ghost predicate CalledSince(calls: seq<nat>, start: nat, period: nat, repeats: bool, now: nat) {
    && (forall i :: 0 <= i < |calls| ==> calls[i] == start + (i + 1) * period)
    && (if repeats then
          period > 0 && start <= now && |calls| == (now - start) / period
        else
          |calls| == if start + period <= now then 1 else 0)
  }

  // ---------------------------------------------------------------- the interrupt loop ends

  /** How many dispatches an entry will cause before nothing of it is due. */
  function Rounds<Id>(e: Entry<Id>, timings: map<Id, Timing>, now: nat): nat {
    if e.timestamp > now then 0
    else if e.id in timings && timings[e.id].repeats && timings[e.id].period > 0 then
      (now - e.timestamp) / timings[e.id].period + 1
    else 1
  }

  function Work<Id>(q: seq<Entry<Id>>, timings: map<Id, Timing>, now: nat): nat {
    if q == [] then 0 else Rounds(q[0], timings, now) + Work(q[1..], timings, now)
  }

  lemma {:induction false} WorkAdds<Id>(a: seq<Entry<Id>>, b: seq<Entry<Id>>, timings: map<Id, Timing>, now: nat)
    ensures Work(a + b, timings, now) == Work(a, timings, now) + Work(b, timings, now)
  {
    if a == [] {
      assert a + b == b;
    } else {
      assert (a + b)[1..] == a[1..] + b;
      WorkAdds(a[1..], b, timings, now);
    }
  }

  lemma WorkInserted<Id>(q: seq<Entry<Id>>, e: Entry<Id>, timings: map<Id, Timing>, now: nat)
    ensures Work(Inserted(q, e), timings, now) == Work(q, timings, now) + Rounds(e, timings, now)
  {
    var k := Rank(q, e.timestamp);
    assert q == q[..k] + q[k..];
    WorkAdds(q[..k], q[k..], timings, now);
    WorkAdds(q[..k], [e] + q[k..], timings, now);
    assert q[..k] + ([e] + q[k..]) == Inserted(q, e);
    assert ([e] + q[k..])[1..] == q[k..];
  }

  ghost predicate SamePeriods<Id>(a: map<Id, Timing>, b: map<Id, Timing>) {
    a.Keys == b.Keys && forall id :: id in a ==> a[id].repeats == b[id].repeats && a[id].period == b[id].period
  }

  lemma {:induction false} WorkSamePeriods<Id>(q: seq<Entry<Id>>, a: map<Id, Timing>, b: map<Id, Timing>, now: nat)
    requires SamePeriods(a, b)
    ensures Work(q, a, now) == Work(q, b, now)
  {
    if q != [] {
      assert q[0].id in a ==> a[q[0].id].repeats == b[q[0].id].repeats && a[q[0].id].period == b[q[0].id].period;
      WorkSamePeriods(q[1..], a, b, now);
    }
  }

  lemma RoundsAfterPeriod(now: nat, timestamp: nat, period: nat)
    requires timestamp <= now && period > 0
    ensures (now - timestamp) / period ==
      if timestamp + period > now then 0 else (now - (timestamp + period)) / period + 1
  {
    if timestamp + period > now {
      SmallDivMod(now - timestamp, period);
    } else {
      ModPlusMultiple(now - timestamp - period, 1, period);
    }
  }

  ghost predicate CanRepeat<Id>(s: System<Id>) {
    Due(s) && s.queue[0].id in s.timings && s.timings[s.queue[0].id].repeats ==>
      && s.timings[s.queue[0].id].period > 0
      && s.queue[0].timestamp + s.timings[s.queue[0].id].period < TWO_64
  }

  /** Each iteration of the interrupt loop does one unit of the remaining work, so with the
      counter standing still the loop runs exactly `Work` times. */
  lemma DispatchDoesOneRound<Id>(s: System<Id>)
    requires Due(s) && CanRepeat(s)
    ensures Work(Dispatched(s).queue, Dispatched(s).timings, s.now) == Work(s.queue, s.timings, s.now) - 1
  {
    var e, r := s.queue[0], Dispatched(s);
    assert SamePeriods(s.timings, r.timings);
    WorkSamePeriods(s.queue[1..], s.timings, r.timings, s.now);
    if e.id in s.timings && s.timings[e.id].repeats {
      var period := s.timings[e.id].period;
      WorkInserted(s.queue[1..], Entry(e.id, e.timestamp + period, s.serial), r.timings, s.now);
      RoundsAfterPeriod(s.now, e.timestamp, period);
    }
  }

  /** With the counter standing still, no Ticker has a zero period or is close to the horizon. */
  ghost predicate Calm<Id>(s: System<Id>) {
    WellQueued(s.queue, s.serial) && NoHang(s.timings, s.now)
  }

  /** The interrupt loop with the counter standing still, and how many iterations it takes: the
      sum over the due events of floor((now - timestamp) / period) + 1. */
  ghost function Drained<Id>(s: System<Id>): (r: (System<Id>, nat))
    requires Calm(s)
    ensures !Due(r.0) && r.1 == Work(s.queue, s.timings, s.now)
    decreases Work(s.queue, s.timings, s.now)
  {
    if Due(s) then
      DispatchDoesOneRound(s);
      DispatchWellQueued(s);
      var (last, n) := Drained(Dispatched(s));
      (last, n + 1)
    else
      NothingDueNoWork(s.queue, s.timings, s.now);
      (s, 0)
  }

  function Fires<Id>(n: nat): seq<Event<Id>> {
    if n == 0 then [] else [Fire] + Fires(n - 1)
  }

  /** That many dispatches, one after the other, do leave nothing due. */
  lemma {:induction false} FiresDrain<Id>(s: System<Id>)
    requires Calm(s)
    ensures var r := After(s, Fires(Work(s.queue, s.timings, s.now)));
      !Due(r) && r == Drained(s).0
    decreases Work(s.queue, s.timings, s.now)
  {
    if Due(s) {
      DispatchDoesOneRound(s);
      DispatchWellQueued(s);
      var fires: seq<Event<Id>> := Fires(Work(s.queue, s.timings, s.now));
      assert fires[0] == Fire && fires[1..] == Fires(Work(s.queue, s.timings, s.now) - 1);
      FiresDrain(Dispatched(s));
    } else {
      NothingDueNoWork(s.queue, s.timings, s.now);
    }
  }

  lemma {:induction false} NothingDueNoWork<Id>(q: seq<Entry<Id>>, timings: map<Id, Timing>, now: nat)
    requires Sorted(q) && (q == [] || q[0].timestamp > now)
    ensures Work(q, timings, now) == 0
  {
    if q != [] {
      assert |q| > 1 ==> Before(q[0], q[1]);
      NothingDueNoWork(q[1..], timings, now);
    }
  }

  lemma {:induction false} AfterAppend<Id>(s: System<Id>, events: seq<Event<Id>>, e: Event<Id>)
    ensures After(s, events + [e]) == Next(After(s, events), e)
    ensures AllAllowed(s, events) && Allowed(After(s, events), e) ==> AllAllowed(s, events + [e])
    decreases |events|
  {
    if events == [] {
      assert (events + [e])[1..] == [];
    } else {
      assert (events + [e])[1..] == events[1..] + [e];
      AfterAppend(Next(s, events[0]), events[1..], e);
    }
  }

  /** Every Ticker has a period, and none can reach the 64-bit horizon by time `limit`. */
  ghost predicate NoHang<Id>(timings: map<Id, Timing>, limit: nat) {
    forall id :: id in timings && timings[id].repeats ==>
      timings[id].period > 0 && limit + timings[id].period < TWO_64
  }

  /** The same with time running on: measured against any later time `limit`, each dispatch is
      allowed and still uses up one unit of work. */
  lemma FireUsesWork<Id>(s: System<Id>, limit: nat)
    requires Due(s) && NoHang(s.timings, limit) && s.now <= limit
    ensures Allowed(s, Fire) && NoHang(Dispatched(s).timings, limit)
    ensures Work(Dispatched(s).queue, Dispatched(s).timings, limit) == Work(s.queue, s.timings, limit) - 1
  {
    var later := s.(now := limit);
    assert Dispatched(later).queue == Dispatched(s).queue && Dispatched(later).timings == Dispatched(s).timings;
    DispatchDoesOneRound(later);
  }

  // ---------------------------------------------------------------- the loop with callbacks at work

  /** Measured by the time and, while it stands still, by the work left: `b` is nearer to the end of the
      interrupt loop than `a`. */
  ghost predicate Nearer<Id>(a: System<Id>, b: System<Id>) {
    a.now < b.now || (a.now == b.now && Work(b.queue, b.timings, b.now) < Work(a.queue, a.timings, a.now))
  }

  ghost predicate NotFarther<Id>(a: System<Id>, b: System<Id>) {
    a.now < b.now || (a.now == b.now && Work(b.queue, b.timings, b.now) <= Work(a.queue, a.timings, a.now))
  }

  lemma {:induction false} WorkAgrees<Id>(q: seq<Entry<Id>>, a: map<Id, Timing>, b: map<Id, Timing>, now: nat)
    requires forall i :: 0 <= i < |q| ==> SameTiming(q[i].id, a, b)
    ensures Work(q, a, now) == Work(q, b, now)
  {
    if q != [] {
      assert SameTiming(q[0].id, a, b);
      WorkAgrees(q[1..], a, b, now);
    }
  }

  /** Taking one object off the queue leaves at most the work there was. */
  lemma WorkWithout<Id>(q: seq<Entry<Id>>, id: Id, a: map<Id, Timing>, b: map<Id, Timing>, now: nat)
    requires DistinctIds(q) && forall x :: x != id ==> SameTiming(x, a, b)
    ensures Work(Without(q, id), b, now) <= Work(q, a, now)
  {
    var k := IndexOf(q, id);
    if k < |q| {
      assert q == q[..k] + q[k..];
      WorkAdds(q[..k], q[k..], a, now);
      WorkAdds(q[..k], q[k + 1..], b, now);
      WorkAgrees(q[..k], a, b, now);
      WorkAgrees(q[k + 1..], a, b, now);
    } else {
      WorkAgrees(q, a, b, now);
    }
  }

  lemma LaterAddsNoWork<Id>(q: seq<Entry<Id>>, e: Entry<Id>, timings: map<Id, Timing>, now: nat)
    requires e.timestamp > now
    ensures Work(Inserted(q, e), timings, now) == Work(q, timings, now)
  {
    WorkInserted(q, e, timings, now);
  }

  /** What is attached is not due yet. */
  lemma AttachAddsNoWork<Id>(s: System<Id>, id: Id, period: nat, repeats: bool)
    requires WellQueued(s.queue, s.serial) && period > 0 && s.now + period < TWO_64
    ensures var r := Next(s, Attach(id, period, repeats));
      Work(r.queue, r.timings, s.now) <= Work(s.queue, s.timings, s.now)
  {
    var timings := s.timings[id := Timing(s.now, period, repeats, [])];
    var q := Without(s.queue, id);
    AttachMakes(s, id, period, repeats);
    WorkWithout(s.queue, id, s.timings, timings, s.now);
    LaterAddsNoWork(q, Entry(id, s.now + period, s.serial), timings, s.now);
  }

  /** So attaching, over a reading of the clock at `start`, brings the loop no farther from its end. */
  lemma ArmedNotFarther<Id>(s: System<Id>, start: nat, now: nat, id: Id, period: nat, repeats: bool)
    requires WellQueued(s.queue, s.serial) && s.now <= start <= now && period > 0 && start + period < TWO_64
    ensures NotFarther(s, Next(s.(now := start), Attach(id, period, repeats)).(now := now))
  {
    if now == s.now {
      assert s.(now := start) == s;
      AttachAddsNoWork(s, id, period, repeats);
    }
  }

  lemma DetachedNotFarther<Id>(s: System<Id>, now: nat, id: Id)
    requires WellQueued(s.queue, s.serial) && s.now <= now
    ensures NotFarther(s, Next(s, Detach(id)).(now := now))
  {
    WorkWithout(s.queue, id, s.timings, s.timings - {id}, s.now);
  }

  lemma DispatchKeepsIds<Id>(s: System<Id>)
    requires Due(s)
    ensures forall e :: e in Dispatched(s).queue ==> exists f :: f in s.queue && f.id == e.id
  {
    var q, first := s.queue[1..], s.queue[0];
    forall e | e in Dispatched(s).queue ensures exists f :: f in s.queue && f.id == e.id {
      if first.id in s.timings && s.timings[first.id].repeats {
        InsertedFrom(q, Entry(first.id, U64(first.timestamp + s.timings[first.id].period), s.serial), e);
      }
      assert e in q ==> e in s.queue;
    }
  }

  lemma InsertedFrom<Id>(q: seq<Entry<Id>>, e: Entry<Id>, x: Entry<Id>)
    ensures x in Inserted(q, e) ==> x == e || x in q
  {
    InsertedContents(q, e);
    assert x in multiset(Inserted(q, e)) <==> x in multiset(q) || x == e;
  }
}
