/** The pending events of a ticker as a value: a list kept in timestamp order, first come first
    served among equal timestamps. `Id` stands for the event object. */
module EventQueue {

  /** `serial` numbers the insertions, so every occurrence of an event is a distinct entry. */
  datatype Entry<Id> = Entry(id: Id, timestamp: nat, serial: nat)

  ghost predicate Before<Id>(a: Entry<Id>, b: Entry<Id>) {
    a.timestamp < b.timestamp || (a.timestamp == b.timestamp && a.serial < b.serial)
  }

  ghost predicate Sorted<Id>(q: seq<Entry<Id>>) {
    forall i, j :: 0 <= i < j < |q| ==> Before(q[i], q[j])
  }

  ghost predicate DistinctIds<Id>(q: seq<Entry<Id>>) {
    forall i, j :: 0 <= i < j < |q| ==> q[i].id != q[j].id
  }

  ghost predicate Queued<Id>(q: seq<Entry<Id>>, id: Id) {
    exists i :: 0 <= i < |q| && q[i].id == id
  }

  /** Where the insertion walk stops: before the first entry with a later timestamp. */
  function Rank<Id>(q: seq<Entry<Id>>, timestamp: nat): (k: nat)
    ensures k <= |q|
    ensures forall i :: 0 <= i < k ==> q[i].timestamp <= timestamp
    ensures k < |q| ==> timestamp < q[k].timestamp
  {
    if q == [] || timestamp < q[0].timestamp then 0 else 1 + Rank(q[1..], timestamp)
  }

  function Inserted<Id>(q: seq<Entry<Id>>, e: Entry<Id>): seq<Entry<Id>> {
    var k := Rank(q, e.timestamp);
    q[..k] + [e] + q[k..]
  }

  function IndexOf<Id(==)>(q: seq<Entry<Id>>, id: Id): (k: nat)
    ensures k <= |q|
    ensures k < |q| ==> q[k].id == id
    ensures forall i :: 0 <= i < k ==> q[i].id != id
  {
    if q == [] || q[0].id == id then 0 else 1 + IndexOf(q[1..], id)
  }

  function Without<Id(==)>(q: seq<Entry<Id>>, id: Id): seq<Entry<Id>> {
    var k := IndexOf(q, id);
    if k < |q| then q[..k] + q[k + 1..] else q
  }

  /** The rank of a timestamp in a sorted list is determined by its neighbours. */
  lemma RankIs<Id>(q: seq<Entry<Id>>, timestamp: nat, k: nat)
    requires k <= |q| && (forall i :: 0 <= i < k ==> q[i].timestamp <= timestamp)
    requires k < |q| ==> timestamp < q[k].timestamp
    ensures Rank(q, timestamp) == k
  {
  }

  lemma InsertedAt<Id>(q: seq<Entry<Id>>, e: Entry<Id>, i: nat)
    requires i <= |q|
    ensures var k := Rank(q, e.timestamp);
      Inserted(q, e)[i] == if i < k then q[i] else if i == k then e else q[i - 1]
  {
    SplitAt(q, e, Rank(q, e.timestamp), i);
  }

  lemma SplitAt<Id>(q: seq<Entry<Id>>, e: Entry<Id>, k: nat, i: nat)
    requires i <= |q| && k <= |q|
    ensures (q[..k] + [e] + q[k..])[i] == if i < k then q[i] else if i == k then e else q[i - 1]
  {
  }

  lemma InsertedSorted<Id>(q: seq<Entry<Id>>, e: Entry<Id>)
    requires Sorted(q) && forall i :: 0 <= i < |q| ==> q[i].serial < e.serial
    ensures Sorted(Inserted(q, e))
  {
    var k, r := Rank(q, e.timestamp), Inserted(q, e);
    forall i, j | 0 <= i < j < |r| ensures Before(r[i], r[j]) {
      if i == k && j > k + 1 {
        assert Before(q[k], q[j - 1]);
      }
    }
  }

  lemma InsertedContents<Id>(q: seq<Entry<Id>>, e: Entry<Id>)
    ensures multiset(Inserted(q, e)) == multiset(q) + multiset{e}
  {
    var k := Rank(q, e.timestamp);
    assert q == q[..k] + q[k..];
  }

  lemma InsertedDistinct<Id>(q: seq<Entry<Id>>, e: Entry<Id>)
    requires DistinctIds(q) && !Queued(q, e.id)
    ensures DistinctIds(Inserted(q, e))
  {
  }

  lemma RemovedContents<Id>(q: seq<Entry<Id>>, k: nat)
    requires k < |q|
    ensures multiset(q) == multiset(q[..k] + q[k + 1..]) + multiset{q[k]}
  {
    assert q == q[..k] + [q[k]] + q[k + 1..];
  }

  lemma RemovedKeepsOrder<Id>(q: seq<Entry<Id>>, k: nat)
    requires k < |q| && Sorted(q) && DistinctIds(q)
    ensures var r := q[..k] + q[k + 1..];
      Sorted(r) && DistinctIds(r) && !Queued(r, q[k].id)
  {
  }

  lemma AbsentIsUntouched<Id>(q: seq<Entry<Id>>, id: Id)
    ensures IndexOf(q, id) < |q| <==> Queued(q, id)
  {
    if Queued(q, id) {
      var i :| 0 <= i < |q| && q[i].id == id;
      assert IndexOf(q, id) <= i;
    }
  }

  // ---------------------------------------------------------------- whole runs

  /** What can happen to the queue between interrupts and inside one: handlers are ordinary code,
      so their insertions and removals are actions like any other. */
  datatype Action<Id> =
    | Insert(id: Id, timestamp: nat)
    | Remove(id: Id)
    | Dispatch(now: nat)

  datatype Fired<Id> = Fired(entry: Entry<Id>, at: nat)

  /** The queue and the history of every occurrence ever inserted. */
  datatype World<Id> = World(
    queue: seq<Entry<Id>>,
    inserted: seq<Entry<Id>>,
    removed: seq<Entry<Id>>,
    fired: seq<Fired<Id>>)

  function Apply<Id(==)>(w: World<Id>, a: Action<Id>): World<Id> {
    match a
    case Insert(id, timestamp) =>
      var e := Entry(id, timestamp, |w.inserted|);
      w.(queue := Inserted(w.queue, e), inserted := w.inserted + [e])
    case Remove(id) =>
      var k := IndexOf(w.queue, id);
      if k < |w.queue| then
        w.(queue := Without(w.queue, id), removed := w.removed + [w.queue[k]])
      else
        w
    case Dispatch(now) =>
      if w.queue != [] && w.queue[0].timestamp <= now then
        w.(queue := w.queue[1..], fired := w.fired + [Fired(w.queue[0], now)])
      else
        w
  }

  function ApplyAll<Id(==)>(w: World<Id>, actions: seq<Action<Id>>): World<Id>
    decreases |actions|
  {
    if actions == [] then w else ApplyAll(Apply(w, actions[0]), actions[1..])
  }

  /** What the insertion code asks of its callers: the object must not be linked already. */
  ghost predicate FreshInserts<Id>(w: World<Id>, actions: seq<Action<Id>>)
    decreases |actions|
  {
    actions != [] ==>
      && (actions[0].Insert? ==> !Queued(w.queue, actions[0].id))
      && FreshInserts(Apply(w, actions[0]), actions[1..])
  }

  function Entries<Id>(fired: seq<Fired<Id>>): seq<Entry<Id>> {
    seq(|fired|, i requires 0 <= i < |fired| => fired[i].entry)
  }

  ghost predicate Safe<Id>(w: World<Id>) {
    && Sorted(w.queue)
    && DistinctIds(w.queue)
    && (forall i :: 0 <= i < |w.inserted| ==> w.inserted[i].serial == i)
    && multiset(w.inserted) == multiset(w.queue) + multiset(w.removed) + multiset(Entries(w.fired))
    && (forall i :: 0 <= i < |w.fired| ==> w.fired[i].entry.timestamp <= w.fired[i].at)
  }

  lemma InsertIsSafe<Id>(w: World<Id>, id: Id, timestamp: nat)
    requires Safe(w) && !Queued(w.queue, id)
    ensures Safe(Apply(w, Insert(id, timestamp)))
  {
    var e := Entry(id, timestamp, |w.inserted|);
    SerialsBelow(w);
    InsertedSorted(w.queue, e);
    InsertedContents(w.queue, e);
    InsertedDistinct(w.queue, e);
    assert multiset(w.inserted + [e]) == multiset(w.inserted) + multiset{e};
  }

  lemma RemoveIsSafe<Id>(w: World<Id>, id: Id)
    requires Safe(w)
    ensures Safe(Apply(w, Remove(id)))
  {
    var k := IndexOf(w.queue, id);
    if k < |w.queue| {
      RemovedContents(w.queue, k);
      RemovedKeepsOrder(w.queue, k);
      assert multiset(w.removed + [w.queue[k]]) == multiset(w.removed) + multiset{w.queue[k]};
    }
  }

  lemma TailInOrder<Id>(q: seq<Entry<Id>>)
    requires q != [] && Sorted(q) && DistinctIds(q)
    ensures Sorted(q[1..]) && DistinctIds(q[1..])
  {
  }

  lemma DispatchIsSafe<Id>(w: World<Id>, now: nat)
    requires Safe(w)
    ensures Safe(Apply(w, Dispatch(now)))
  {
    if w.queue != [] && w.queue[0].timestamp <= now {
      var e, fired := w.queue[0], w.fired + [Fired(w.queue[0], now)];
      assert w.queue == [e] + w.queue[1..];
      assert multiset(w.queue) == multiset{e} + multiset(w.queue[1..]);
      assert Entries(fired) == Entries(w.fired) + [e];
      TailInOrder(w.queue);
    }
  }

  lemma ApplyIsSafe<Id>(w: World<Id>, a: Action<Id>)
    requires Safe(w) && (a.Insert? ==> !Queued(w.queue, a.id))
    ensures Safe(Apply(w, a))
  {
    match a
    case Insert(id, timestamp) => InsertIsSafe(w, id, timestamp);
    case Remove(id) => RemoveIsSafe(w, id);
    case Dispatch(now) => DispatchIsSafe(w, now);
  }

  lemma SerialsBelow<Id>(w: World<Id>)
    requires Safe(w)
    ensures forall i :: 0 <= i < |w.queue| ==> w.queue[i].serial < |w.inserted|
  {
    forall i | 0 <= i < |w.queue| ensures w.queue[i].serial < |w.inserted| {
      assert w.queue[i] in multiset(w.queue);
      assert w.queue[i] in multiset(w.inserted);
    }
  }

  /** Over any run of insertions, removals and dispatches the queue stays in order with one link
      per object, nothing is dispatched early, and nothing inserted is lost or duplicated. */
  lemma {:induction false} RunsAreSafe<Id>(w: World<Id>, actions: seq<Action<Id>>)
    requires Safe(w) && FreshInserts(w, actions)
    ensures Safe(ApplyAll(w, actions))
    decreases |actions|
  {
    if actions != [] {
      ApplyIsSafe(w, actions[0]);
      RunsAreSafe(Apply(w, actions[0]), actions[1..]);
    }
  }

  /** Every occurrence ever inserted is queued, removed or dispatched, and only once in all. */
  lemma OccurrenceAccounted<Id>(w: World<Id>, k: nat)
    requires Safe(w) && k < |w.inserted|
    ensures var e := w.inserted[k];
      multiset(w.queue)[e] + multiset(w.removed)[e] + multiset(Entries(w.fired))[e] == 1
  {
    var e := w.inserted[k];
    RemovedContents(w.inserted, k);
    assert e !in w.inserted[..k] + w.inserted[k + 1..];
    assert multiset(w.inserted)[e] == 1;
    assert (multiset(w.queue) + multiset(w.removed) + multiset(Entries(w.fired)))[e] == 1;
  }

  // ---------------------------------------------------------------- what each action does

  /** Taking an object off leaves exactly the others. */
  lemma WithoutContents<Id>(q: seq<Entry<Id>>, id: Id)
    requires DistinctIds(q)
    ensures !Queued(Without(q, id), id)
    ensures forall e: Entry<Id> :: e.id != id ==> (e in Without(q, id) <==> e in q)
    ensures |Without(q, id)| == |q| - if Queued(q, id) then 1 else 0
  {
    var k := IndexOf(q, id);
    if k < |q| {
      assert q == q[..k] + [q[k]] + q[k + 1..];
    } else {
      AbsentIsUntouched(q, id);
    }
  }

  /** An insertion adds one occurrence, which waits in the queue, and touches no other. */
  lemma InsertAdds<Id>(w: World<Id>, id: Id, timestamp: nat)
    ensures var r, e := Apply(w, Insert(id, timestamp)), Entry(id, timestamp, |w.inserted|);
      && r.inserted == w.inserted + [e]
      && multiset(r.queue) == multiset(w.queue) + multiset{e}
      && r.removed == w.removed && r.fired == w.fired
  {
    InsertedContents(w.queue, Entry(id, timestamp, |w.inserted|));
  }

  /** A removal takes the one occurrence of the object out of the queue, if it has one, and nothing
      else. */
  lemma RemoveTakes<Id>(w: World<Id>, id: Id)
    requires Safe(w)
    ensures var r := Apply(w, Remove(id));
      && !Queued(r.queue, id)
      && r.inserted == w.inserted && r.fired == w.fired
      && (forall e: Entry<Id> :: e.id != id ==> (e in r.queue <==> e in w.queue))
      && (forall e: Entry<Id> :: e.id == id && e in w.queue ==> r.removed == w.removed + [e])
      && (!Queued(w.queue, id) ==> r == w)
  {
    WithoutContents(w.queue, id);
  }

  ghost predicate NoInsertOf<Id>(actions: seq<Action<Id>>, id: Id) {
    forall i :: 0 <= i < |actions| && actions[i].Insert? ==> actions[i].id != id
  }

  lemma {:induction false} StaysOut<Id>(w: World<Id>, id: Id, actions: seq<Action<Id>>)
    requires !Queued(w.queue, id) && NoInsertOf(actions, id)
    ensures var r := ApplyAll(w, actions);
      && !Queued(r.queue, id)
      && w.fired <= r.fired
      && forall i :: |w.fired| <= i < |r.fired| ==> r.fired[i].entry.id != id
    decreases |actions|
  {
    if actions != [] {
      StaysOut(Apply(w, actions[0]), id, actions[1..]);
    }
  }

  /** A removed object is not dispatched any more, along any run that does not insert it again. */
  lemma RemovedNeverFires<Id>(w: World<Id>, id: Id, actions: seq<Action<Id>>)
    requires Safe(w) && NoInsertOf(actions, id)
    ensures var r := ApplyAll(Apply(w, Remove(id)), actions);
      && !Queued(r.queue, id)
      && |w.fired| <= |r.fired|
      && forall i :: |w.fired| <= i < |r.fired| ==> r.fired[i].entry.id != id
  {
    RemoveTakes(w, id);
    StaysOut(Apply(w, Remove(id)), id, actions);
  }

  function FiredAt<Id>(q: seq<Entry<Id>>, now: nat): seq<Fired<Id>> {
    seq(|q|, i requires 0 <= i < |q| => Fired(q[i], now))
  }

  function Repeated<Id>(a: Action<Id>, n: nat): seq<Action<Id>> {
    if n == 0 then [] else [a] + Repeated(a, n - 1)
  }

  /** The world once the first `d` entries have been fired. */
  function FrontFired<Id>(w: World<Id>, now: nat, d: nat): World<Id>
    requires d <= |w.queue|
  {
    w.(queue := w.queue[d..], fired := w.fired + FiredAt(w.queue[..d], now))
  }

  lemma OneMoreFired<Id>(w: World<Id>, now: nat, d: nat)
    requires d < |w.queue| && w.queue[0].timestamp <= now
    ensures FrontFired(Apply(w, Dispatch(now)), now, d) == FrontFired(w, now, d + 1)
  {
    assert FiredAt(w.queue[..d + 1], now) == [Fired(w.queue[0], now)] + FiredAt(w.queue[1..][..d], now);
    assert w.queue[1..][d..] == w.queue[d + 1..];
  }

  function DueOf<Id>(q: seq<Entry<Id>>, now: nat, n: nat): (d: nat)
    ensures d <= |q|
  {
    if n < Rank(q, now) then n else Rank(q, now)
  }

  lemma RepeatedStep<Id>(w: World<Id>, a: Action<Id>, n: nat)
    requires n > 0
    ensures ApplyAll(w, Repeated(a, n)) == ApplyAll(Apply(w, a), Repeated(a, n - 1))
  {
    assert Repeated(a, n)[0] == a && Repeated(a, n)[1..] == Repeated(a, n - 1);
  }

  /** Dispatching again and again at one time fires the due entries from the front, in order, until none
      is left, and nothing else. */
  lemma {:induction false} DispatchesFireDue<Id>(w: World<Id>, now: nat, n: nat)
    ensures ApplyAll(w, Repeated(Dispatch(now), n)) == FrontFired(w, now, DueOf(w.queue, now, n))
    decreases n
  {
    if n == 0 {
      assert w.queue[0..] == w.queue && w.fired + FiredAt(w.queue[..0], now) == w.fired;
    } else {
      RepeatedStep(w, Dispatch(now), n);
      DispatchesFireDue(Apply(w, Dispatch(now)), now, n - 1);
      if w.queue != [] && w.queue[0].timestamp <= now {
        OneMoreFired(w, now, DueOf(w.queue[1..], now, n - 1));
      }
    }
  }

  /** So once nothing due is queued, every occurrence whose time has come was dispatched, unless it was
      removed. */
  lemma OverdueIsFired<Id>(w: World<Id>, k: nat, now: nat)
    requires Safe(w) && k < |w.inserted| && w.inserted[k].timestamp <= now && w.inserted[k] !in w.removed
    requires w.queue == [] || now < w.queue[0].timestamp
    ensures exists i :: 0 <= i < |w.fired| && w.fired[i].entry == w.inserted[k]
  {
    var e := w.inserted[k];
    OccurrenceAccounted(w, k);
    assert forall i :: 0 < i < |w.queue| ==> Before(w.queue[0], w.queue[i]);
    assert e !in w.queue;
    assert multiset(Entries(w.fired))[e] == 1;
    assert e in Entries(w.fired);
    var i :| 0 <= i < |w.fired| && Entries(w.fired)[i] == e;
    assert w.fired[i].entry == e;
  }

  // ---------------------------------------------------------------- order inside one interrupt

  /** Handlers insert nothing earlier than the event they are handling, the last one dispatched
      at or after position `from` of the history. */
  ghost predicate NoBackdating<Id>(w: World<Id>, from: nat, actions: seq<Action<Id>>)
    decreases |actions|
  {
    actions != [] ==>
      && (actions[0].Insert? && from < |w.fired| ==>
            w.fired[|w.fired| - 1].entry.timestamp <= actions[0].timestamp)
      && NoBackdating(Apply(w, actions[0]), from, actions[1..])
  }

  ghost predicate InOrderFrom<Id>(w: World<Id>, from: nat) {
    && from <= |w.fired|
    && Sorted(Entries(w.fired)[from..])
    && (from < |w.fired| ==>
          forall i :: 0 <= i < |w.queue| ==> Before(w.fired[|w.fired| - 1].entry, w.queue[i]))
  }

  /** Within one interrupt events are dispatched in timestamp order, and in order of insertion
      when their timestamps are equal, including those the handlers themselves add. */
  lemma {:induction false} DispatchInOrder<Id>(w: World<Id>, from: nat, actions: seq<Action<Id>>)
    requires Safe(w) && InOrderFrom(w, from)
    requires FreshInserts(w, actions) && NoBackdating(w, from, actions)
    ensures InOrderFrom(ApplyAll(w, actions), from)
    decreases |actions|
  {
    if actions != [] {
      ApplyIsSafe(w, actions[0]);
      ApplyInOrder(w, from, actions[0]);
      DispatchInOrder(Apply(w, actions[0]), from, actions[1..]);
    }
  }

  lemma ApplyInOrder<Id>(w: World<Id>, from: nat, a: Action<Id>)
    requires Safe(w) && InOrderFrom(w, from) && NoBackdating(w, from, [a])
    ensures InOrderFrom(Apply(w, a), from)
  {
    match a
    case Insert(id, timestamp) => InsertInOrder(w, from, id, timestamp);
    case Remove(id) =>
    case Dispatch(now) =>
      if w.queue != [] && w.queue[0].timestamp <= now {
        DispatchExtends(w, from, now);
      }
  }

  lemma InsertInOrder<Id>(w: World<Id>, from: nat, id: Id, timestamp: nat)
    requires Safe(w) && InOrderFrom(w, from)
    requires from < |w.fired| ==> w.fired[|w.fired| - 1].entry.timestamp <= timestamp
    ensures InOrderFrom(Apply(w, Insert(id, timestamp)), from)
  {
    if from < |w.fired| {
      LastFiredSerial(w);
      var e, last := Entry(id, timestamp, |w.inserted|), w.fired[|w.fired| - 1].entry;
      forall i | 0 <= i <= |w.queue| ensures Before(last, Inserted(w.queue, e)[i]) {
        InsertedAt(w.queue, e, i);
      }
    }
  }

  lemma LastFiredSerial<Id>(w: World<Id>)
    requires Safe(w) && w.fired != []
    ensures w.fired[|w.fired| - 1].entry.serial < |w.inserted|
  {
    var last := w.fired[|w.fired| - 1].entry;
    assert last == Entries(w.fired)[|w.fired| - 1];
    assert last in multiset(Entries(w.fired));
    assert last in multiset(w.inserted);
  }

  lemma DispatchExtends<Id>(w: World<Id>, from: nat, now: nat)
    requires Sorted(w.queue) && InOrderFrom(w, from) && w.queue != [] && w.queue[0].timestamp <= now
    ensures InOrderFrom(Apply(w, Dispatch(now)), from)
  {
    var e := w.queue[0];
    var past, longer := Entries(w.fired), Entries(Apply(w, Dispatch(now)).fired);
    assert longer[from..] == past[from..] + [e];
    if from < |w.fired| {
      assert past[from..][|w.fired| - from - 1] == w.fired[|w.fired| - 1].entry;
      LastIsGreatest(past[from..], e);
    }
  }

  lemma LastIsGreatest<Id>(q: seq<Entry<Id>>, e: Entry<Id>)
    requires Sorted(q) && q != [] && Before(q[|q| - 1], e)
    ensures Sorted(q + [e])
  {
    forall i | 0 <= i < |q| ensures Before(q[i], e) {
      assert i == |q| - 1 || Before(q[i], q[|q| - 1]);
    }
  }
}
