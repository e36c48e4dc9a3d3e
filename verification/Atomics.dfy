/** The atomic operations on a shared cell of 8, 16 or 32 bits: load-exclusive/store-exclusive retry
    loops and the critical-section fallback, against one specification. */
module Atomics {
  import opened Prelude

  datatype Op =
    | Cas(expected: nat, desired: nat)
    | Incr(delta: nat)
    | Decr(delta: nat)

  /** What a call returns: for `cas` also the value left in `*expectedCurrentValue`. */
  datatype Result = CasResult(success: bool, current: nat) | NewValue(value: nat)

  /** The value an operation leaves in a cell of `modulus` values that held `cell`. */
  function Stored(cell: nat, op: Op, modulus: nat): nat
    requires modulus > 0
  {
    match op
    case Cas(expected, desired) => desired
    case Incr(delta) => (cell + delta) % modulus
    case Decr(delta) => (cell - delta) % modulus
  }

  /** The operation done at one instant. */
  function Apply(cell: nat, op: Op, modulus: nat): (nat, Result)
    requires modulus > 0
  {
    var v := Stored(cell, op, modulus);
    if !op.Cas? then (v, NewValue(v))
    else if cell == op.expected then (v, CasResult(true, op.expected))
    else (cell, CasResult(false, cell))
  }

  /** A context that has loaded exclusively and not yet stored, or is about to load. */
  datatype Pc = Idle | Loading(op: Op) | Storing(op: Op, loaded: nat)

  datatype Event = Event(context: nat, op: Op, result: Result)

  /** `reserved` holds the contexts whose exclusive monitor is still set (section A3.4 of the ARMv7-M
      Architecture Reference Manual). `history` lists the finished operations in the order in which
      they took effect. */
  datatype Memory = Memory(cell: nat, reserved: set<nat>, contexts: map<nat, Pc>, history: seq<Event>) {
    function Of(c: nat): Pc {
      if c in contexts then contexts[c] else Idle
    }
  }

  /** A store-exclusive may fail for no visible reason, and a reservation may be lost at any moment,
      as by an exception; a successful store clears every reservation. */
  datatype Step =
    | Call(context: nat, op: Op)
    | LoadExclusive(context: nat)
    | StoreExclusive(context: nat, success: bool)
    | LoseReservation(context: nat)

  predicate Enabled(m: Memory, s: Step) {
    match s
    case Call(c, op) => m.Of(c).Idle?
    case LoadExclusive(c) => m.Of(c).Loading?
    case StoreExclusive(c, success) => m.Of(c).Storing? && (success ==> c in m.reserved)
    case LoseReservation(c) => true
  }

  function Next(m: Memory, s: Step, modulus: nat): Memory
    requires modulus > 0 && Enabled(m, s)
  {
    match s
    case Call(c, op) => m.(contexts := m.contexts[c := Loading(op)])
    case LoadExclusive(c) =>
      var op := m.Of(c).op;
      if op.Cas? && m.cell != op.expected then
        m.(reserved := m.reserved - {c},
           contexts := m.contexts[c := Idle],
           history := m.history + [Event(c, op, CasResult(false, m.cell))])
      else
        m.(reserved := m.reserved + {c}, contexts := m.contexts[c := Storing(op, m.cell)])
    case StoreExclusive(c, success) =>
      var op, v := m.Of(c).op, Stored(m.Of(c).loaded, m.Of(c).op, modulus);
      if success then
        Memory(v, {}, m.contexts[c := Idle],
               m.history + [Event(c, op, if op.Cas? then CasResult(true, op.expected) else NewValue(v))])
      else
        m.(reserved := m.reserved - {c}, contexts := m.contexts[c := Loading(op)])
    case LoseReservation(c) => m.(reserved := m.reserved - {c})
  }

  /** The cell after the operations of the history, one after the other. */
  function Replay(cell: nat, history: seq<Event>, modulus: nat): nat
    requires modulus > 0
  {
    if history == [] then cell
    else Apply(Replay(cell, history[..|history| - 1], modulus), history[|history| - 1].op, modulus).0
  }

  /** Every finished call returned what its operation returns at its place in the history. */
  ghost predicate ResultsMatch(cell: nat, history: seq<Event>, modulus: nat)
    requires modulus > 0
  {
    forall i :: 0 <= i < |history| ==>
      history[i].result == Apply(Replay(cell, history[..i], modulus), history[i].op, modulus).1
  }

  ghost predicate Inv(m: Memory, start: nat, modulus: nat)
    requires modulus > 0
  {
    && m.cell == Replay(start, m.history, modulus)
    && ResultsMatch(start, m.history, modulus)
    && (forall c: nat :: c in m.reserved && m.Of(c).Storing? ==> m.Of(c).loaded == m.cell)
    && (forall c: nat :: m.Of(c).Storing? && m.Of(c).op.Cas? ==> m.Of(c).loaded == m.Of(c).op.expected)
  }

  /** Appending an event that took effect on the current cell. */
  lemma HistoryGrows(start: nat, history: seq<Event>, e: Event, modulus: nat)
    requires modulus > 0 && ResultsMatch(start, history, modulus)
    requires e.result == Apply(Replay(start, history, modulus), e.op, modulus).1
    ensures ResultsMatch(start, history + [e], modulus)
    ensures Replay(start, history + [e], modulus) == Apply(Replay(start, history, modulus), e.op, modulus).0
  {
    var longer := history + [e];
    assert longer[..|history|] == history;
    forall i | 0 <= i < |longer|
      ensures longer[i].result == Apply(Replay(start, longer[..i], modulus), longer[i].op, modulus).1
    {
      if i < |history| {
        assert longer[..i] == history[..i];
      }
    }
  }

  lemma StepKeepsInv(m: Memory, s: Step, start: nat, modulus: nat)
    requires modulus > 0 && Inv(m, start, modulus) && Enabled(m, s)
    ensures Inv(Next(m, s, modulus), start, modulus)
  {
    var m' := Next(m, s, modulus);
    var c := s.context;
    if s.LoadExclusive? && m.Of(c).op.Cas? && m.cell != m.Of(c).op.expected {
      HistoryGrows(start, m.history, Event(c, m.Of(c).op, CasResult(false, m.cell)), modulus);
    } else if s.StoreExclusive? && s.success {
      var op := m.Of(c).op;
      HistoryGrows(start, m.history, Event(c, op, Apply(m.cell, op, modulus).1), modulus);
    }
    assert forall x: nat :: x != c ==> m'.Of(x) == m.Of(x);
  }

  ghost predicate Possible(m: Memory, steps: seq<Step>, modulus: nat)
    requires modulus > 0
    decreases |steps|
  {
    steps != [] ==> Enabled(m, steps[0]) && Possible(Next(m, steps[0], modulus), steps[1..], modulus)
  }

  function After(m: Memory, steps: seq<Step>, modulus: nat): Memory
    requires modulus > 0 && Possible(m, steps, modulus)
    decreases |steps|
  {
    if steps == [] then m else After(Next(m, steps[0], modulus), steps[1..], modulus)
  }

  lemma {:induction false} RunKeepsInv(m: Memory, steps: seq<Step>, start: nat, modulus: nat)
    requires modulus > 0 && Inv(m, start, modulus) && Possible(m, steps, modulus)
    ensures Inv(After(m, steps, modulus), start, modulus)
    decreases |steps|
  {
    if steps != [] {
      StepKeepsInv(m, steps[0], start, modulus);
      RunKeepsInv(Next(m, steps[0], modulus), steps[1..], start, modulus);
    }
  }

  // ---------------------------------------------------------------- every call, exactly once

  /** The operations of one context that have taken effect, in order. */
  function Done(history: seq<Event>, c: nat): seq<Op> {
    if history == [] then []
    else
      var last := history[|history| - 1];
      Done(history[..|history| - 1], c) + if last.context == c then [last.op] else []
  }

  /** The operation that a context is in the middle of. */
  function Pending(pc: Pc): seq<Op> {
    if pc.Idle? then [] else [pc.op]
  }

  /** The operations that a context calls in the steps, in order. */
  function Called(steps: seq<Step>, c: nat): seq<Op> {
    if steps == [] then []
    else (if steps[0].Call? && steps[0].context == c then [steps[0].op] else []) + Called(steps[1..], c)
  }

  lemma DoneAppend(history: seq<Event>, e: Event, c: nat)
    ensures Done(history + [e], c) == Done(history, c) + if e.context == c then [e.op] else []
  {
    assert (history + [e])[..|history + [e]| - 1] == history;
  }

  lemma StepTakesOnce(m: Memory, s: Step, c: nat, modulus: nat)
    requires modulus > 0 && Enabled(m, s)
    ensures var m' := Next(m, s, modulus);
      Done(m'.history, c) + Pending(m'.Of(c)) ==
        Done(m.history, c) + Pending(m.Of(c)) + if s.Call? && s.context == c then [s.op] else []
  {
    var m' := Next(m, s, modulus);
    if m'.history != m.history {
      var e := m'.history[|m.history|];
      assert m'.history == m.history + [e];
      DoneAppend(m.history, e, c);
    }
  }

  /** In every run each context's calls take effect once each and in their order: those that have taken
      effect, followed by the one it is in the middle of, are those called. A context calls again only
      when it is idle, so each call takes effect before it returns. */
  lemma {:induction false} EachCallOnce(m: Memory, steps: seq<Step>, c: nat, modulus: nat)
    requires modulus > 0 && Possible(m, steps, modulus)
    ensures var r := After(m, steps, modulus);
      Done(r.history, c) + Pending(r.Of(c)) == Done(m.history, c) + Pending(m.Of(c)) + Called(steps, c)
    decreases |steps|
  {
    if steps != [] {
      var m' := Next(m, steps[0], modulus);
      StepTakesOnce(m, steps[0], c, modulus);
      EachCallOnce(m', steps[1..], c, modulus);
    }
  }

  /** For any number of contexts and any interleaving of their exclusive loads and stores: every call
      takes effect once, in the order of its context, and all of them return, and leave in the cell,
      what they would one after the other. */
  lemma Linearizable(m: Memory, steps: seq<Step>, start: nat, modulus: nat)
    requires modulus > 0 && Inv(m, start, modulus) && Possible(m, steps, modulus)
    ensures var r := After(m, steps, modulus);
      && r.cell == Replay(start, r.history, modulus)
      && ResultsMatch(start, r.history, modulus)
      && Inv(r, start, modulus)
      && forall c: nat ::
        Done(r.history, c) + Pending(r.Of(c)) == Done(m.history, c) + Pending(m.Of(c)) + Called(steps, c)
  {
    RunKeepsInv(m, steps, start, modulus);
    forall c: nat ensures var r := After(m, steps, modulus);
      Done(r.history, c) + Pending(r.Of(c)) == Done(m.history, c) + Pending(m.Of(c)) + Called(steps, c)
    {
      EachCallOnce(m, steps, c, modulus);
    }
  }

  // ---------------------------------------------------------------- no update is lost

  function Change(op: Op): int {
    match op
    case Incr(delta) => delta
    case Decr(delta) => -(delta as int)
    case Cas(expected, desired) => 0
  }

  function Total(history: seq<Event>): int {
    if history == [] then 0 else Total(history[..|history| - 1]) + Change(history[|history| - 1].op)
  }

  /** All increments called in the steps minus all decrements. */
  function CallsTotal(steps: seq<Step>): int {
    if steps == [] then 0
    else (if steps[0].Call? then Change(steps[0].op) else 0) + CallsTotal(steps[1..])
  }

  function PendingChange(pc: Pc): int {
    if pc.Idle? then 0 else Change(pc.op)
  }

  /** What the contexts below `n` have called and not finished. */
  function PendingTotal(m: Memory, n: nat): int {
    if n == 0 then 0 else PendingTotal(m, n - 1) + PendingChange(m.Of(n - 1))
  }

  lemma {:induction false} PendingTotalMoves(m: Memory, m': Memory, c: nat, n: nat)
    requires forall x: nat :: x != c ==> m'.Of(x) == m.Of(x)
    ensures PendingTotal(m', n) - PendingTotal(m, n) ==
      if c < n then PendingChange(m'.Of(c)) - PendingChange(m.Of(c)) else 0
  {
    if n > 0 {
      PendingTotalMoves(m, m', c, n - 1);
    }
  }

  lemma {:induction false} NothingPending(m: Memory, n: nat)
    requires forall c: nat :: m.Of(c).Idle?
    ensures PendingTotal(m, n) == 0
  {
    if n > 0 {
      NothingPending(m, n - 1);
    }
  }

  /** A step moves a change from the pending to the finished ones, or adds one that is called. */
  lemma StepConserves(m: Memory, s: Step, n: nat, modulus: nat)
    requires modulus > 0 && Enabled(m, s) && s.context < n
    ensures var m' := Next(m, s, modulus);
      Total(m'.history) + PendingTotal(m', n) ==
        Total(m.history) + PendingTotal(m, n) + if s.Call? then Change(s.op) else 0
  {
    var m' := Next(m, s, modulus);
    PendingTotalMoves(m, m', s.context, n);
    if m'.history != m.history {
      assert m'.history[..|m'.history| - 1] == m.history;
    }
  }

  lemma {:induction false} RunConserves(m: Memory, steps: seq<Step>, n: nat, modulus: nat)
    requires modulus > 0 && Possible(m, steps, modulus)
    requires forall i :: 0 <= i < |steps| ==> steps[i].context < n
    ensures var r := After(m, steps, modulus);
      Total(r.history) + PendingTotal(r, n) == Total(m.history) + PendingTotal(m, n) + CallsTotal(steps)
    decreases |steps|
  {
    if steps != [] {
      StepConserves(m, steps[0], n, modulus);
      RunConserves(Next(m, steps[0], modulus), steps[1..], n, modulus);
    }
  }

  /** Contexts that only compare and set, or only increment and decrement. */
  ghost predicate Only(m: Memory, cas: bool) {
    && (forall i :: 0 <= i < |m.history| ==> m.history[i].op.Cas? == cas)
    && (forall c: nat :: m.Of(c).Idle? || m.Of(c).op.Cas? == cas)
  }

  ghost predicate CallsOnly(steps: seq<Step>, cas: bool) {
    forall i :: 0 <= i < |steps| ==> steps[i].Call? ==> steps[i].op.Cas? == cas
  }

  lemma {:induction false} StaysOnly(m: Memory, steps: seq<Step>, cas: bool, modulus: nat)
    requires modulus > 0 && Only(m, cas) && Possible(m, steps, modulus) && CallsOnly(steps, cas)
    ensures Only(After(m, steps, modulus), cas)
    decreases |steps|
  {
    if steps != [] {
      var s, m' := steps[0], Next(m, steps[0], modulus);
      assert forall x: nat :: x != s.context ==> m'.Of(x) == m.Of(x);
      StaysOnly(m', steps[1..], cas, modulus);
    }
  }

  lemma {:induction false} ReplayAdds(start: nat, history: seq<Event>, modulus: nat)
    requires start < modulus && forall i :: 0 <= i < |history| ==> !history[i].op.Cas?
    ensures Replay(start, history, modulus) == (start + Total(history)) % modulus
    decreases |history|
  {
    if history == [] {
      SmallDivMod(start, modulus);
    } else {
      var earlier, op := history[..|history| - 1], history[|history| - 1].op;
      ReplayAdds(start, earlier, modulus);
      OneMoreUpdate(start + Total(earlier), op, modulus);
    }
  }

  lemma OneMoreUpdate(sum: int, op: Op, modulus: nat)
    requires modulus > 0 && !op.Cas?
    ensures Apply(sum % modulus, op, modulus).0 == (sum + Change(op)) % modulus
  {
    ModAdd(sum, Change(op), modulus);
  }

  lemma {:induction false} ContextBound(steps: seq<Step>) returns (n: nat)
    ensures forall i :: 0 <= i < |steps| ==> steps[i].context < n
  {
    n := 0;
    if steps != [] {
      n := ContextBound(steps[1..]);
      n := if steps[0].context < n then n else steps[0].context + 1;
      assert forall i :: 0 < i < |steps| ==> steps[i] == steps[1..][i - 1];
    }
  }

  /** A cell on which nothing has happened yet. */
  function Untouched(cell: nat): Memory {
    Memory(cell, {}, map[], [])
  }

  /** No update is lost: whatever the interleaving of any number of contexts that increment and
      decrement, once all their calls have returned the cell is the initial value plus all increments
      called minus all decrements called, modulo its width. */
  lemma NoUpdateLost(start: nat, steps: seq<Step>, modulus: nat)
    requires start < modulus && Possible(Untouched(start), steps, modulus) && CallsOnly(steps, false)
    requires forall c: nat :: After(Untouched(start), steps, modulus).Of(c).Idle?
    ensures After(Untouched(start), steps, modulus).cell == (start + CallsTotal(steps)) % modulus
  {
    var m, r := Untouched(start), After(Untouched(start), steps, modulus);
    var n := ContextBound(steps);
    RunConserves(m, steps, n, modulus);
    NothingPending(m, n);
    NothingPending(r, n);
    StaysOnly(m, steps, false, modulus);
    RunKeepsInv(m, steps, start, modulus);
    ReplayAdds(start, r.history, modulus);
  }

  /** Each of them returns the total up to and including its own change. */
  lemma TotalsReturned(start: nat, steps: seq<Step>, modulus: nat, i: nat)
    requires start < modulus && Possible(Untouched(start), steps, modulus) && CallsOnly(steps, false)
    requires i < |After(Untouched(start), steps, modulus).history|
    ensures var history := After(Untouched(start), steps, modulus).history;
      history[i].result == NewValue((start + Total(history[..i + 1])) % modulus)
  {
    var r := After(Untouched(start), steps, modulus);
    StaysOnly(Untouched(start), steps, false, modulus);
    RunKeepsInv(Untouched(start), steps, start, modulus);
    var upTo := r.history[..i + 1];
    assert upTo[..i] == r.history[..i] && upTo[i] == r.history[i];
    ReplayAdds(start, upTo, modulus);
  }

  // ---------------------------------------------------------------- compare and set

  /** The value set by the last successful compare-and-set, going by what the calls returned. */
  function LastSet(start: nat, history: seq<Event>): nat {
    if history == [] then start
    else
      var last := history[|history| - 1];
      if last.op.Cas? && last.result.CasResult? && last.result.success then last.op.desired
      else LastSet(start, history[..|history| - 1])
  }

  /** What a compare-and-set does to the value it finds. */
  ghost predicate ComparesAndSets(e: Event, before: nat, after: nat) {
    && e.op.Cas? && e.result.CasResult?
    && (e.result.success <==> before == e.op.expected)
    && e.result.current == before
    && after == if e.result.success then e.op.desired else before
  }

  /** Among any operations, each compare-and-set succeeds if and only if the cell holds what it expects at
      its instant, sets it then, and leaves it alone and reports it otherwise. */
  lemma CasMeans(start: nat, history: seq<Event>, modulus: nat, i: nat)
    requires modulus > 0 && ResultsMatch(start, history, modulus) && i < |history| && history[i].op.Cas?
    ensures ComparesAndSets(history[i], Replay(start, history[..i], modulus), Replay(start, history[..i + 1], modulus))
  {
    var upTo := history[..i + 1];
    assert upTo[..i] == history[..i] && upTo[i] == history[i];
  }

  lemma {:induction false} ReplayIsLastSet(start: nat, history: seq<Event>, modulus: nat)
    requires modulus > 0 && ResultsMatch(start, history, modulus)
    requires forall i :: 0 <= i < |history| ==> history[i].op.Cas?
    ensures Replay(start, history, modulus) == LastSet(start, history)
    decreases |history|
  {
    if history != [] {
      var n := |history| - 1;
      assert forall i :: 0 <= i <= n ==> history[..n][..i] == history[..i];
      ReplayIsLastSet(start, history[..n], modulus);
      CasMeans(start, history, modulus, n);
      assert history[..n + 1] == history;
    }
  }

  /** In every interleaving of any number of contexts that compare and set, the successful calls form a
      chain: each expected what the one before it had set, the first one the initial value, the cell
      holds what the last one set, and every call that failed reports the value that was set then. */
  lemma CasChain(start: nat, steps: seq<Step>, modulus: nat)
    requires start < modulus && Possible(Untouched(start), steps, modulus) && CallsOnly(steps, true)
    ensures var r := After(Untouched(start), steps, modulus);
      && r.cell == LastSet(start, r.history)
      && forall i :: 0 <= i < |r.history| ==>
        ComparesAndSets(r.history[i], LastSet(start, r.history[..i]), LastSet(start, r.history[..i + 1]))
  {
    var r := After(Untouched(start), steps, modulus);
    StaysOnly(Untouched(start), steps, true, modulus);
    RunKeepsInv(Untouched(start), steps, start, modulus);
    ReplayIsLastSet(start, r.history, modulus);
    forall i | 0 <= i < |r.history|
      ensures ComparesAndSets(r.history[i], LastSet(start, r.history[..i]), LastSet(start, r.history[..i + 1]))
    {
      assert forall n :: i <= n <= i + 1 ==> forall k :: 0 <= k <= n ==> r.history[..n][..k] == r.history[..k];
      ReplayIsLastSet(start, r.history[..i], modulus);
      ReplayIsLastSet(start, r.history[..i + 1], modulus);
      CasMeans(start, r.history, modulus, i);
    }
  }

  // ---------------------------------------------------------------- the code

  /** A cell and what other contexts do to it between an exclusive load and the store that
      follows: `interference` has one entry per window, and none when it is used up. */
  datatype Interference = Undisturbed | Lost | Overwritten(value: nat)

  class Cell {
    const modulus: nat
    var value: nat
    var interference: seq<Interference>
    /** Every value the cell has had. */
    ghost var values: seq<nat>

    ghost predicate Valid()
      reads this
    {
      modulus > 0 && values != [] && value == values[|values| - 1]
    }

    constructor (modulus: nat, value: nat, interference: seq<Interference>)
      requires modulus > 0
      ensures Valid() && this.modulus == modulus && this.value == value && values == [value]
    {
      this.modulus, this.value, this.interference := modulus, value, interference;
      values := [value];
    }

    /** `__STREX`: false for success, as the instruction has it, unless disturbed since the load. */
    method StoreExclusive(v: nat) returns (failed: bool)
      requires Valid()
      modifies this
      ensures Valid()
      ensures !failed ==> value == v && values == old(values) + [v]
      ensures failed ==> old(values) <= values && |interference| < |old(interference)|
    {
      var what := if interference == [] then Undisturbed else interference[0];
      interference := if interference == [] then [] else interference[1..];
      match what
      case Undisturbed =>
        value, values := v, values + [v];
        failed := false;
      case Lost =>
        failed := true;
      case Overwritten(other) =>
        value, values := other, values + [other];
        failed := true;
    }

    /** `core_util_atomic_incr_*` with exclusive access: the sum is over the value at the instant of
        the store. */
    method IncrExclusive(delta: nat) returns (newValue: nat)
      requires Valid()
      modifies this
      ensures Valid() && old(values) <= values && |values| > |old(values)|
      ensures (value, NewValue(newValue)) == Apply(values[|values| - 2], Incr(delta), modulus)
      ensures value == newValue == (values[|values| - 2] + delta) % modulus
    {
      newValue := (value + delta) % modulus;
      var failed := StoreExclusive(newValue);
      while failed
        invariant Valid() && old(values) <= values
        invariant !failed ==> |values| > |old(values)|
        invariant !failed ==> value == newValue == (values[|values| - 2] + delta) % modulus
        decreases failed, |interference|
      {
        newValue := (value + delta) % modulus;
        failed := StoreExclusive(newValue);
      }
    }

    /** `core_util_atomic_decr_*` with exclusive access. */
    method DecrExclusive(delta: nat) returns (newValue: nat)
      requires Valid()
      modifies this
      ensures Valid() && old(values) <= values && |values| > |old(values)|
      ensures (value, NewValue(newValue)) == Apply(values[|values| - 2], Decr(delta), modulus)
      ensures value == newValue == (values[|values| - 2] - delta) % modulus
    {
      newValue := (value - delta) % modulus;
      var failed := StoreExclusive(newValue);
      while failed
        invariant Valid() && old(values) <= values
        invariant !failed ==> |values| > |old(values)|
        invariant !failed ==> value == newValue == (values[|values| - 2] - delta) % modulus
        decreases failed, |interference|
      {
        newValue := (value - delta) % modulus;
        failed := StoreExclusive(newValue);
      }
    }

    /** `core_util_atomic_cas_*` with exclusive access: never a spurious failure. */
    method CasExclusive(expected: nat, desired: nat) returns (success: bool, current: nat)
      requires Valid()
      modifies this
      ensures Valid() && old(values) <= values
      ensures success ==>
        && |values| > |old(values)|
        && (value, CasResult(success, current)) == Apply(values[|values| - 2], Cas(expected, desired), modulus)
      ensures !success ==> (value, CasResult(success, current)) == Apply(value, Cas(expected, desired), modulus)
      ensures success ==> current == expected == values[|values| - 2] && value == desired
      ensures !success ==> current == value != expected
    {
      var failed := true;
      while failed
        invariant Valid() && old(values) <= values
        invariant !failed ==> |values| > |old(values)| && value == desired && values[|values| - 2] == expected
        decreases failed, |interference|
      {
        var currentValue := value;
        if currentValue != expected {
          return false, currentValue;
        }
        failed := StoreExclusive(desired);
      }
      return true, expected;
    }

    /** The same operations inside a critical section, where nothing can intervene. */
    method IncrInCriticalSection(delta: nat) returns (newValue: nat)
      requires Valid()
      modifies this`value, this`values
      ensures Valid() && (value, NewValue(newValue)) == Apply(old(value), Incr(delta), modulus)
      ensures value == newValue == (old(value) + delta) % modulus
    {
      newValue := (value + delta) % modulus;
      value, values := newValue, values + [newValue];
    }

    method DecrInCriticalSection(delta: nat) returns (newValue: nat)
      requires Valid()
      modifies this`value, this`values
      ensures Valid() && (value, NewValue(newValue)) == Apply(old(value), Decr(delta), modulus)
      ensures value == newValue == (old(value) - delta) % modulus
    {
      newValue := (value - delta) % modulus;
      value, values := newValue, values + [newValue];
    }

    method CasInCriticalSection(expected: nat, desired: nat) returns (success: bool, current: nat)
      requires Valid()
      modifies this`value, this`values
      ensures Valid() && (value, CasResult(success, current)) == Apply(old(value), Cas(expected, desired), modulus)
      ensures (success <==> old(value) == expected) && current == old(value)
      ensures value == if success then desired else old(value)
    {
      var currentValue := value;
      if currentValue == expected {
        value, values := desired, values + [desired];
        success, current := true, expected;
      } else {
        success, current := false, currentValue;
      }
    }
  }
}
