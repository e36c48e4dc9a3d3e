/** Nested critical sections on one core: interrupt masking with a nesting counter, in every
    interleaving of threads and interrupt handlers that the mask allows. */
module CriticalSections {
  import opened Prelude

  /** `UINT32_MAX`. */
  const MAX_DEPTH: nat := TWO_32 - 1

  /** A context is a thread or an interrupt handler. `Entering` is the point inside
      `core_util_critical_section_enter` between reading the mask and setting it. */
  datatype Pc = Ready | Entering(disabled: bool)
  datatype Context = Context(pc: Pc, depth: nat)

  /** `counter` and `saved` are `interrupt_enable_counter` and `critical_interrupts_disabled`;
      `masked` is PRIMASK. `before` remembers the mask as it really was when the outermost critical
      section began, and `failed` that an assertion did not hold. */
  datatype Core = Core(
    counter: nat,
    saved: bool,
    masked: bool,
    running: nat,
    contexts: map<nat, Context>,
    before: bool,
    failed: bool)
  {
    function Of(c: nat): Context {
      if c in contexts then contexts[c] else Context(Ready, 0)
    }

    function Set(pc: Pc, depth: nat): Core {
      this.(contexts := contexts[running := Context(pc, depth)])
    }
  }

  /** `SwitchTo` is any change of context, by an interrupt, its return or the scheduler. `SetMask`
      is other code masking or unmasking interrupts outside critical sections. */
  datatype Step =
    | SwitchTo(context: nat)
    | ReadMask
    | DisableAndCount
    | Exit
    | SetMask(masked: bool)

  predicate Enabled(s: Core, step: Step) {
    var me := s.Of(s.running);
    match step
    case SwitchTo(c) => !s.masked
    case ReadMask => me.pc.Ready?
    case DisableAndCount => me.pc.Entering?
    case Exit => me.pc.Ready?
    case SetMask(m) => me.pc.Ready? && me.depth == 0
  }

  function Next(s: Core, step: Step): Core
    requires Enabled(s, step)
  {
    var me := s.Of(s.running);
    match step
    case SwitchTo(c) => s.(running := c)
    case ReadMask => s.Set(Entering(s.masked), me.depth)
    case DisableAndCount =>
      var s' := s.Set(Ready, me.depth + 1).(masked := true, counter := s.counter + 1);
      var first := s.counter == 0;
      s'.(saved := if first then me.pc.disabled else s.saved,
          before := if first then s.masked else s.before,
          failed := s.failed || s.counter >= MAX_DEPTH || (!first && !me.pc.disabled))
    case Exit =>
      if s.counter == 0 then s
      else
        var s' := s.Set(Ready, if me.depth > 0 then me.depth - 1 else 0).(counter := s.counter - 1);
        s'.(masked := if s.counter == 1 && !s.saved then false else s.masked,
            failed := s.failed || !s.masked)
    case SetMask(m) => s.(masked := m)
  }

  ghost predicate Inv(s: Core) {
    && !s.failed
    && s.counter == s.Of(s.running).depth
    && (s.counter > 0 ==> s.masked && s.saved == s.before)
    && (s.Of(s.running).pc.Entering? ==> s.Of(s.running).pc.disabled == s.masked)
    && (forall c: nat :: c != s.running ==> s.Of(c).depth == 0)
    && (forall c: nat :: c != s.running && s.Of(c).pc.Entering? ==> !s.Of(c).pc.disabled)
  }

  lemma StepKeepsInv(s: Core, step: Step)
    requires Inv(s) && Enabled(s, step)
    ensures Inv(Next(s, step)) <==> !(step.DisableAndCount? && s.counter >= MAX_DEPTH)
    ensures step.Exit? && s.counter == 1 ==> Next(s, step).masked == s.before
  {
    var s' := Next(s, step);
    assert forall c: nat :: c != s.running ==> s'.Of(c) == s.Of(c);
  }

  ghost predicate Possible(s: Core, steps: seq<Step>)
    decreases |steps|
  {
    steps != [] ==>
      && Enabled(s, steps[0])
      && (steps[0].DisableAndCount? ==> s.counter < MAX_DEPTH)
      && Possible(Next(s, steps[0]), steps[1..])
  }

  function After(s: Core, steps: seq<Step>): Core
    requires Possible(s, steps)
    decreases |steps|
  {
    if steps == [] then s else After(Next(s, steps[0]), steps[1..])
  }

  /** Along every run whose nesting stays below the counter's limit: interrupts are masked at any
      positive depth, the assertions never fail, only the running context is inside a critical
      section, and leaving the outermost one restores the mask found on entering it. */
  lemma {:induction false} CriticalSectionsNest(s: Core, steps: seq<Step>)
    requires Inv(s) && Possible(s, steps)
    ensures Inv(After(s, steps))
    decreases |steps|
  {
    if steps != [] {
      StepKeepsInv(s, steps[0]);
      CriticalSectionsNest(Next(s, steps[0]), steps[1..]);
    }
  }

  /** A context inside a critical section keeps running until it has left it, whatever else is
      ready: what it does meanwhile is one atomic step to all others. */
  lemma {:induction false} CriticalSectionIsAtomic(s: Core, steps: seq<Step>)
    requires Inv(s) && Possible(s, steps)
    requires forall k :: 0 <= k < |steps| ==> StateAt(s, steps, k).counter > 0
    ensures After(s, steps).running == s.running
    decreases |steps|
  {
    if steps != [] {
      StepKeepsInv(s, steps[0]);
      assert StateAt(s, steps, 0) == s;
      var s', rest := Next(s, steps[0]), steps[1..];
      forall k | 0 <= k < |rest| ensures StateAt(s', rest, k).counter > 0 {
        assert StateAt(s, steps, k + 1) == StateAt(s', rest, k);
      }
      CriticalSectionIsAtomic(s', rest);
    }
  }

  /** The state after the first `k` steps. */
  function StateAt(s: Core, steps: seq<Step>, k: nat): Core
    requires Possible(s, steps) && k <= |steps|
    decreases k
  {
    if k == 0 then s else StateAt(Next(s, steps[0]), steps[1..], k - 1)
  }

  // ---------------------------------------------------------------- enters and exits

  /** How deep a run of enters and exits leads from depth `d`, whatever else happens in it; an exit too
      many counts for nothing. */
  function Nesting(steps: seq<Step>, d: nat): nat {
    if steps == [] then d
    else
      Nesting(steps[1..], match steps[0]
                          case DisableAndCount => d + 1
                          case Exit => if d > 0 then d - 1 else 0
                          case _ => d)
  }

  /** The counter is the depth, along every run. */
  lemma {:induction false} CounterIsNesting(s: Core, steps: seq<Step>)
    requires Possible(s, steps)
    ensures After(s, steps).counter == Nesting(steps, s.counter)
    decreases |steps|
  {
    if steps != [] {
      CounterIsNesting(Next(s, steps[0]), steps[1..]);
    }
  }

  /** More enters than exits at every point of the run so far. */
  ghost predicate StaysInside(steps: seq<Step>, d: nat) {
    forall k :: 0 <= k <= |steps| ==> Nesting(steps[..k], d) > 0
  }

  lemma InsideNext(steps: seq<Step>, s: Core)
    requires steps != [] && Possible(s, steps) && StaysInside(steps, s.counter)
    ensures s.counter > 0 && StaysInside(steps[1..], Next(s, steps[0]).counter)
  {
    assert steps[..0] == [];
    forall k | 0 <= k <= |steps[1..]| ensures Nesting(steps[1..][..k], Next(s, steps[0]).counter) > 0 {
      assert steps[..k + 1][1..] == steps[1..][..k];
      assert Nesting(steps[..k + 1], s.counter) > 0;
    }
  }

  /** A context that has entered and not yet left is masked, and keeps running whatever else is ready. */
  lemma {:induction false} InsideIsMasked(s: Core, steps: seq<Step>)
    requires Inv(s) && Possible(s, steps) && StaysInside(steps, s.counter)
    ensures var r := After(s, steps); r.masked && r.running == s.running && r.before == s.before
    decreases |steps|
  {
    if steps == [] {
      assert steps[..0] == [];
    } else {
      InsideNext(steps, s);
      StepKeepsInv(s, steps[0]);
      InsideIsMasked(Next(s, steps[0]), steps[1..]);
    }
  }

  /** Entering masks and counts: the context is inside right afterwards. */
  lemma EnterIsInside(s: Core)
    requires Inv(s) && Enabled(s, DisableAndCount) && s.counter < MAX_DEPTH
    ensures var r := Next(s, DisableAndCount);
      Inv(r) && r.masked && r.counter == s.counter + 1 && r.running == s.running
  {
    StepKeepsInv(s, DisableAndCount);
  }

  /** A whole outermost critical section, from the step that masks to the exit that balances it, with
      nested ones in between: the mask afterwards is the one found before. */
  lemma SectionRestoresMask(s: Core, inside: seq<Step>)
    requires Inv(s) && s.counter == 0 && Possible(s, [DisableAndCount] + inside + [Step.Exit])
    requires StaysInside(inside, 1) && Nesting(inside, 1) == 1
    ensures var r := After(s, [DisableAndCount] + inside + [Step.Exit]);
      r.masked == s.masked && r.counter == 0 && r.running == s.running
  {
    var steps := [DisableAndCount] + inside + [Step.Exit];
    var entered := Next(s, DisableAndCount);
    assert steps[1..] == inside + [Step.Exit];
    EnterIsInside(s);
    SplitRun(entered, inside, Step.Exit);
    InsideIsMasked(entered, inside);
    CounterIsNesting(entered, inside);
    CriticalSectionsNest(entered, inside);
    StepKeepsInv(After(entered, inside), Step.Exit);
  }

  lemma {:induction false} SplitRun(s: Core, steps: seq<Step>, last: Step)
    requires Possible(s, steps + [last])
    ensures Possible(s, steps) && Enabled(After(s, steps), last)
    ensures After(s, steps + [last]) == Next(After(s, steps), last)
    decreases |steps|
  {
    if steps == [] {
      assert (steps + [last])[1..] == [];
    } else {
      assert (steps + [last])[1..] == steps[1..] + [last];
      SplitRun(Next(s, steps[0]), steps[1..], last);
    }
  }

  // ---------------------------------------------------------------- the code

  /** The two functions as they run, from the first read of the mask to the end. */
  class CriticalSection {
    var interruptEnableCounter: nat
    var criticalInterruptsDisabled: bool
    var primask: bool

    constructor ()
      ensures interruptEnableCounter == 0 && !primask
    {
      interruptEnableCounter, criticalInterruptsDisabled, primask := 0, false, false;
    }

    ghost function View(depth: nat, before: bool): Core
      reads this
    {
      Core(interruptEnableCounter, criticalInterruptsDisabled, primask, 0, map[0 := Context(Ready, depth)],
           before, false)
    }

    /** `core_util_critical_section_enter`; `ok` says that its assertions held. */
    method Enter() returns (ok: bool)
      modifies this
      ensures ok == (old(interruptEnableCounter) < MAX_DEPTH && (old(interruptEnableCounter) > 0 ==> old(primask)))
      ensures forall before: bool ::
        var s := old(View(interruptEnableCounter, before));
        var s' := Next(Next(s, ReadMask), DisableAndCount);
        ok == !s'.failed && (ok ==> View(interruptEnableCounter, s'.before) == s')
      ensures ok ==> primask && interruptEnableCounter == old(interruptEnableCounter) + 1
      ensures ok && old(interruptEnableCounter) == 0 ==> criticalInterruptsDisabled == old(primask)
    {
      var interruptsDisabled := primask;
      primask := true;
      if interruptEnableCounter == 0 {
        criticalInterruptsDisabled := interruptsDisabled;
      }
      if !(interruptEnableCounter < MAX_DEPTH) {
        return false;
      }
      if interruptEnableCounter > 0 && !interruptsDisabled {
        return false;
      }
      interruptEnableCounter := interruptEnableCounter + 1;
      return true;
    }

    /** `core_util_critical_section_exit`. */
    method Exit() returns (ok: bool)
      modifies this
      ensures ok == (old(interruptEnableCounter) > 0 ==> old(primask))
      ensures forall before: bool ::
        var s := old(View(interruptEnableCounter, before));
        ok ==> View(interruptEnableCounter, before) == Next(s, Step.Exit)
      ensures ok && old(interruptEnableCounter) > 0 ==>
        && interruptEnableCounter == old(interruptEnableCounter) - 1
        && primask == (interruptEnableCounter > 0 || criticalInterruptsDisabled)
      ensures old(interruptEnableCounter) == 0 ==> interruptEnableCounter == 0 && primask == old(primask)
      ensures criticalInterruptsDisabled == old(criticalInterruptsDisabled)
    {
      if interruptEnableCounter > 0 {
        var interruptsDisabled := primask;
        if !interruptsDisabled {
          return false;
        }
        interruptEnableCounter := interruptEnableCounter - 1;
        if interruptEnableCounter == 0 && !criticalInterruptsDisabled {
          primask := false;
        }
      }
      return true;
    }
  }
}
