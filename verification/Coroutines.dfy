/**
  The coroutine state machine of minicoro on one thread.

  A context switch is one step: resuming pushes a coroutine on the chain that
  hangs from the running one by its `prev_co` links, yielding or finishing pops
  it. `Machine` is that state as a value; `Scheduler` and `Coro` are the objects
  the source mutates, proved to move as the machine does.
*/
module Coroutines {
  import opened Bytes

  datatype State = Dead | Normal | Running | Suspended

  datatype Result =
    | Success
    | InvalidPointer
    | InvalidCoroutine
    | NotSuspended
    | NotRunning
    | OutOfMemory
    | InvalidArguments
    | InvalidOperation
    | StackOverflow
    | MakeContextError

  datatype Record<+C> = Record(state: State, prev: Option<C>)

  /** The live coroutines and the running one; `current` is absent on the thread's own stack. */
  datatype Machine<C(==)> = Machine(current: Option<C>, coros: map<C, Record<C>>)

  function SetState<C>(m: Machine<C>, c: C, state: State): Machine<C>
    requires c in m.coros
  {
    m.(coros := m.coros[c := m.coros[c].(state := state)])
  }

  function SetPrev<C>(m: Machine<C>, c: C, prev: Option<C>): Machine<C>
    requires c in m.coros
  {
    m.(coros := m.coros[c := m.coros[c].(prev := prev)])
  }

  /** No link leaves the live coroutines. */
  predicate Linked<C>(m: Machine<C>) {
    && (m.current.Some? ==> m.current.value in m.coros)
    && (forall c | c in m.coros && m.coros[c].prev.Some? :: m.coros[c].prev.value in m.coros)
  }

  function JumpedIn<C>(m: Machine<C>, c: C): Machine<C>
    requires c in m.coros && (m.current.Some? ==> m.current.value in m.coros)
  {
    var m1 := SetPrev(m, c, m.current);
    var m2 := if m.current.Some? then SetState(m1, m.current.value, Normal) else m1;
    m2.(current := Some(c))
  }

  function JumpedOut<C>(m: Machine<C>, c: C): Machine<C>
    requires c in m.coros && (m.coros[c].prev.Some? ==> m.coros[c].prev.value in m.coros)
  {
    var prev := m.coros[c].prev;
    var m1 := SetPrev(m, c, None);
    var m2 := if prev.Some? then SetState(m1, prev.value, Running) else m1;
    m2.(current := prev)
  }

  // ---------------------------------------------------------------------------------------
  // The invariant
  // ---------------------------------------------------------------------------------------

  /** The coroutine below the `i`th of a chain. */
  function Under<C>(chain: seq<C>, i: nat): Option<C> {
    if i + 1 < |chain| then Some(chain[i + 1]) else None
  }

  /** The chain of `prev_co` links from the running coroutine, topmost first. */
  predicate IsChain<C>(m: Machine<C>, chain: seq<C>) {
    && (forall i | 0 <= i < |chain| :: chain[i] in m.coros)
    && (forall i, j | 0 <= i < j < |chain| :: chain[i] != chain[j])
    && m.current == (if chain == [] then None else Some(chain[0]))
    && (forall i | 0 <= i < |chain| :: m.coros[chain[i]].prev == Under(chain, i))
  }

  /** The top of the chain runs, the rest of it waits for the top, everything else is at rest. */
  predicate Sound<C>(m: Machine<C>, chain: seq<C>) {
    && IsChain(m, chain)
    && (forall i | 0 <= i < |chain| :: m.coros[chain[i]].state == if i == 0 then Running else Normal)
    && (forall c | c in m.coros && c !in chain ::
          m.coros[c].prev == None && m.coros[c].state in {Suspended, Dead})
  }

  datatype Op<+C> =
    | Create(c: C)
    | Resume(c: C)
    | Yield(c: C, overflow: bool)
    | Finish
    | Destroy(c: C)

  /** What the caller owes: pointers to live coroutines, fresh memory, and a function that returns. */
  predicate Callable<C>(m: Machine<C>, op: Op<C>) {
    match op
    case Create(c) => c !in m.coros
    case Finish => m.current.Some?
    case _ => op.c in m.coros
  }

  function Next<C>(m: Machine<C>, op: Op<C>): Machine<C>
    requires Linked(m) && Callable(m, op)
  {
    match op
    case Create(c) => m.(coros := m.coros[c := Record(Suspended, None)])
    case Resume(c) =>
      if m.coros[c].state != Suspended then m else JumpedIn(SetState(m, c, Running), c)
    case Yield(c, overflow) =>
      if overflow || m.coros[c].state != Running then m else JumpedOut(SetState(m, c, Suspended), c)
    case Finish => JumpedOut(SetState(m, m.current.value, Dead), m.current.value)
    case Destroy(c) =>
      if m.coros[c].state in {Suspended, Dead} then m.(coros := m.coros - {c}) else m
  }

  /** How the chain moves with the machine. */
  function NextChain<C(==)>(m: Machine<C>, chain: seq<C>, op: Op<C>): seq<C>
    requires Callable(m, op) && (op.Finish? ==> chain != [])
  {
    match op
    case Resume(c) => if m.coros[c].state == Suspended then [c] + chain else chain
    case Yield(c, overflow) => if !overflow && m.coros[c].state == Running && chain != [] then chain[1..] else chain
    case Finish => chain[1..]
    case _ => chain
  }

  lemma SoundIsLinked<C>(m: Machine<C>, chain: seq<C>)
    requires Sound(m, chain)
    ensures Linked(m)
  {
    forall c | c in m.coros && m.coros[c].prev.Some?
      ensures m.coros[c].prev.value in m.coros
    {
      assert c in chain;
      var i :| 0 <= i < |chain| && chain[i] == c;
      assert m.coros[c].prev == Under(chain, i);
    }
  }

  /** Only the top of the chain is running, so only it can yield. */
  lemma RunningIsCurrent<C>(m: Machine<C>, chain: seq<C>, c: C)
    requires Sound(m, chain) && c in m.coros && m.coros[c].state == Running
    ensures chain != [] && c == chain[0] && m.current == Some(c)
  {
    assert c in chain;
    var i :| 0 <= i < |chain| && chain[i] == c;
    assert i == 0;
  }

  lemma ResumeSound<C>(m: Machine<C>, chain: seq<C>, c: C)
    requires Sound(m, chain) && Linked(m) && c in m.coros && m.coros[c].state == Suspended
    ensures Sound(Next(m, Resume(c)), [c] + chain)
  {
    assert c !in chain;
    var m' := Next(m, Resume(c));
    var chain' := [c] + chain;
    assert forall i | 0 <= i < |chain| :: chain'[i + 1] == chain[i];
    forall i | 0 <= i < |chain'|
      ensures m'.coros[chain'[i]].prev == Under(chain', i)
      ensures m'.coros[chain'[i]].state == if i == 0 then Running else Normal
    {
      if i > 0 {
        assert chain'[i] == chain[i - 1] && Under(chain', i) == Under(chain, i - 1);
      }
    }
  }

  lemma JumpOutSound<C>(m: Machine<C>, chain: seq<C>, state: State)
    requires Sound(m, chain) && Linked(m) && chain != [] && state in {Suspended, Dead}
    ensures Sound(JumpedOut(SetState(m, chain[0], state), chain[0]), chain[1..])
  {
    var m' := JumpedOut(SetState(m, chain[0], state), chain[0]);
    var chain' := chain[1..];
    assert forall i | 0 <= i < |chain'| :: chain'[i] == chain[i + 1];
    forall i | 0 <= i < |chain'|
      ensures m'.coros[chain'[i]].prev == Under(chain', i)
      ensures m'.coros[chain'[i]].state == if i == 0 then Running else Normal
    {
      assert chain'[i] == chain[i + 1] && Under(chain', i) == Under(chain, i + 1);
    }
    forall c | c in m'.coros && c !in chain'
      ensures m'.coros[c].prev == None && m'.coros[c].state in {Suspended, Dead}
    {
      assert chain == [chain[0]] + chain';
    }
  }

  /** Main result, one step: every call keeps the chain a duplicate-free stack with everything else at rest. */
  lemma StepSound<C>(m: Machine<C>, chain: seq<C>, op: Op<C>)
    requires Sound(m, chain) && Linked(m) && Callable(m, op)
    ensures op.Finish? ==> chain != []
    ensures Sound(Next(m, op), NextChain(m, chain, op))
  {
    match op
    case Create(c) =>
    case Resume(c) =>
      if m.coros[c].state == Suspended {
        ResumeSound(m, chain, c);
      }
    case Yield(c, overflow) =>
      if m.coros[c].state == Running {
        RunningIsCurrent(m, chain, c);
        JumpOutSound(m, chain, Suspended);
      }
    case Finish => JumpOutSound(m, chain, Dead);
    case Destroy(c) =>
  }

  // ---------------------------------------------------------------------------------------
  // Runs
  // ---------------------------------------------------------------------------------------

  predicate AllCallable<C>(m: Machine<C>, ops: seq<Op<C>>)
    decreases |ops|
  {
    ops == [] || (Linked(m) && Callable(m, ops[0]) && AllCallable(Next(m, ops[0]), ops[1..]))
  }

  function Exec<C>(m: Machine<C>, ops: seq<Op<C>>): Machine<C>
    requires AllCallable(m, ops)
    decreases |ops|
  {
    if ops == [] then m else Exec(Next(m, ops[0]), ops[1..])
  }

  ghost predicate ChainSound<C(!new)>(m: Machine<C>) {
    exists chain :: Sound(m, chain)
  }

  /** Main result, whole runs: a thread that starts with no coroutine stays sound. */
  lemma {:induction false} RunSound<C(!new)>(m: Machine<C>, chain: seq<C>, ops: seq<Op<C>>) returns (chain': seq<C>)
    requires Sound(m, chain) && AllCallable(m, ops)
    ensures Sound(Exec(m, ops), chain')
    decreases |ops|
  {
    if ops == [] {
      chain' := chain;
    } else {
      StepSound(m, chain, ops[0]);
      chain' := RunSound(Next(m, ops[0]), NextChain(m, chain, ops[0]), ops[1..]);
    }
  }

  lemma EveryRunSound<C(!new)>(ops: seq<Op<C>>)
    requires AllCallable(Machine(None, map[]), ops)
    ensures ChainSound(Exec(Machine(None, map[]), ops))
  {
    var chain := RunSound(Machine(None, map[]), [], ops);
  }

  /** Destroying never removes a member of the chain, nor changes anything about it. */
  lemma DestroySparesChain<C>(m: Machine<C>, chain: seq<C>, c: C)
    requires Sound(m, chain) && Linked(m) && c in m.coros
    ensures c in chain ==> Next(m, Destroy(c)) == m
    ensures forall d | d in chain :: d in Next(m, Destroy(c)).coros && Next(m, Destroy(c)).coros[d] == m.coros[d]
  {
  }

  /** Jumping in and back out restores the machine. */
  lemma JumpOutUndoesJumpIn<C>(m: Machine<C>, c: C)
    requires c in m.coros && m.coros[c] == Record(Suspended, None)
    requires m.current.Some? ==> m.current.value in m.coros && m.coros[m.current.value].state == Running
    ensures var m' := JumpedIn(SetState(m, c, Running), c);
            m'.coros[c] == Record(Running, m.current)
            && JumpedOut(SetState(m', c, Suspended), c) == m
  {
    var m' := JumpedIn(SetState(m, c, Running), c);
    var m'' := JumpedOut(SetState(m', c, Suspended), c);
    assert m''.coros.Keys == m.coros.Keys;
    if m.current.Some? {
      var p := m.current.value;
      assert m''.coros[p] == m.coros[p];
    }
    assert m''.coros == m.coros;
  }

  /** A coroutine that yields at once leaves the machine exactly as before it was resumed. */
  lemma YieldUndoesResume<C>(m: Machine<C>, chain: seq<C>, c: C)
    requires Sound(m, chain) && Linked(m) && c in m.coros && m.coros[c].state == Suspended
    ensures var m' := Next(m, Resume(c));
            Linked(m') && Next(m', Yield(c, false)) == m
  {
    ResumeSound(m, chain, c);
    SoundIsLinked(Next(m, Resume(c)), [c] + chain);
    assert c !in chain;
    assert m.coros[c] == Record(Suspended, None);
    assert m.current.Some? ==> m.current.value in chain && m.coros[m.current.value].state == Running;
    hide Sound, IsChain, Linked, JumpedIn, JumpedOut, SetState;
    JumpOutUndoesJumpIn(m, c);
  }

  /** `low` is what hangs below the top of `chain`. */
  predicate Below<C(==)>(low: seq<C>, chain: seq<C>) {
    |low| <= |chain| && chain[|chain| - |low|..] == low
  }

  /** Whether a run never lets control back below the chain it started from. */
  predicate StaysAbove<C>(m: Machine<C>, chain: seq<C>, ops: seq<Op<C>>, depth: nat)
    decreases |ops|
  {
    ops == [] ||
    (Linked(m) && Callable(m, ops[0]) && (ops[0].Finish? ==> chain != []) &&
     var chain' := NextChain(m, chain, ops[0]);
     depth <= |chain'| && StaysAbove(Next(m, ops[0]), chain', ops[1..], depth))
  }

  /**
    Main result, control: whatever a resumed coroutine does in turn, those below it on the chain
    stay there in order, and when it leaves the chain its resumer is running again.
   */
  lemma {:induction false} ResumerRegainsControl<C>(m: Machine<C>, chain: seq<C>, low: seq<C>, ops: seq<Op<C>>)
      returns (chain': seq<C>)
    requires Sound(m, chain) && AllCallable(m, ops)
    requires Below(low, chain) && StaysAbove(m, chain, ops, |low|)
    ensures Sound(Exec(m, ops), chain') && Below(low, chain')
    ensures low != [] && |chain'| == |low| ==>
              Exec(m, ops).current == Some(low[0]) && Exec(m, ops).coros[low[0]].state == Running
    decreases |ops|
  {
    if ops == [] {
      chain' := chain;
    } else {
      StepSound(m, chain, ops[0]);
      chain' := ResumerRegainsControl(Next(m, ops[0]), NextChain(m, chain, ops[0]), low, ops[1..]);
    }
  }

  // ---------------------------------------------------------------------------------------
  // The objects
  // ---------------------------------------------------------------------------------------

  /** The fields of `mco_coro` that the state machine uses. */
  class Coro {
    var state: State
    var prevCo: Coro?

    /** Memory cleared by mco_init. */
    constructor ()
      ensures state == Dead && prevCo == null
    {
      state, prevCo := Dead, null;
    }
  }

  lemma EnterSound<C>(m: Machine<C>, chain: seq<C>, c: C)
    requires Sound(m, chain) && Linked(m) && c in m.coros && m.coros[c].state == Suspended
    ensures var m' := JumpedIn(SetState(m, c, Running), c);
            Sound(m', [c] + chain) && Linked(m') && m' == Next(m, Resume(c))
    ensures m.current.Some? ==> m.current.value in m.coros
  {
    ResumeSound(m, chain, c);
    SoundIsLinked(Next(m, Resume(c)), [c] + chain);
  }

  lemma LeaveSound<C>(m: Machine<C>, chain: seq<C>, state: State)
    requires Sound(m, chain) && Linked(m) && chain != [] && state in {Suspended, Dead}
    ensures chain[0] in m.coros && (m.coros[chain[0]].prev.Some? ==> m.coros[chain[0]].prev.value in m.coros)
    ensures var m' := JumpedOut(SetState(m, chain[0], state), chain[0]);
            Sound(m', chain[1..]) && Linked(m')
  {
    JumpOutSound(m, chain, state);
    SoundIsLinked(JumpedOut(SetState(m, chain[0], state), chain[0]), chain[1..]);
  }

  lemma DropSound<C>(m: Machine<C>, chain: seq<C>, c: C)
    requires Sound(m, chain) && Linked(m) && c in m.coros && m.coros[c].state in {Suspended, Dead}
    ensures var m' := m.(coros := m.coros - {c});
            Sound(m', chain) && Linked(m') && m' == Next(m, Destroy(c)) && c !in chain
  {
    StepSound(m, chain, Destroy(c));
    SoundIsLinked(Next(m, Destroy(c)), chain);
  }

  function Link(c: Coro?): Option<Coro> {
    if c == null then None else Some(c)
  }

  /** One thread's coroutines and its `mco_current_co`; `machine` is their state as a value. */
  class Scheduler {
    var currentCo: Coro?
    ghost var live: set<Coro>
    ghost var chain: seq<Coro>
    ghost var machine: Machine<Coro>

    /** The objects' fields are those of `machine`. */
    ghost predicate Mirrors()
      reads this, live
    {
      && machine.current == Link(currentCo) && machine.coros.Keys == live
      && forall c | c in live :: machine.coros[c] == Record(c.state, Link(c.prevCo))
    }

    ghost predicate Valid()
      reads this, live
    {
      Mirrors() && Sound(machine, chain) && Linked(machine)
    }

    constructor ()
      ensures Valid() && machine == Machine(None, map[])
    {
      currentCo, live, chain, machine := null, {}, [], Machine(None, map[]);
    }

    /**
      mco_create: the outcome of checking the description, of the allocation and of making the
      context are the caller's to choose.
     */
    method Create(descOk: bool, memoryOk: bool, init: Result) returns (res: Result, co: Coro?)
      requires Valid()
      modifies this
      ensures Valid() && live == old(live) + (if co != null then {co} else {})
      ensures res == if !descOk then InvalidArguments else if !memoryOk then OutOfMemory else init
      ensures co != null <==> descOk && memoryOk && init == Success
      ensures co != null ==> fresh(co) && Callable(old(machine), Op.Create(co))
      ensures co != null ==> co.state == Suspended && co.prevCo == null
      ensures currentCo == old(currentCo)
      ensures machine == if co != null then Next(old(machine), Op.Create(co)) else old(machine)
    {
      if !descOk {
        return InvalidArguments, null;
      }
      if !memoryOk {
        return OutOfMemory, null;
      }
      var c := new Coro();
      if init != Success {
        return init, null;
      }
      c.state := Suspended;
      live := live + {c};
      StepSound(machine, chain, Op.Create(c));
      machine := Next(machine, Op.Create(c));
      SoundIsLinked(machine, chain);
      return Success, c;
    }

    /** mco_resume. */
    method Resume(co: Coro?) returns (res: Result)
      requires Valid() && (co != null ==> co in live)
      modifies this, live
      ensures Valid() && live == old(live)
      ensures co == null ==> res == InvalidCoroutine && machine == old(machine)
      ensures co != null ==> machine == Next(old(machine), Op.Resume(co))
      ensures co != null ==> res == if old(co.state) == Suspended then Success else NotSuspended
      ensures res != Success ==> machine == old(machine)
      ensures res == Success ==> currentCo == co && co.state == Running && co.prevCo == old(currentCo)
      ensures res == Success && old(currentCo) != null ==> old(currentCo).state == Normal
      ensures forall c | c in live && c != co && c != old(currentCo) :: c.state == old(c.state) && c.prevCo == old(c.prevCo)
    {
      if co == null {
        return InvalidCoroutine;
      }
      if co.state != Suspended {
        return NotSuspended;
      }
      Enter(co);
      return Success;
    }

    /** A suspended coroutine runs on behalf of the one that is running now. */
    method Enter(co: Coro)
      requires Valid() && co in live && co.state == Suspended
      modifies this, live
      ensures Valid() && live == old(live)
      ensures machine == JumpedIn(SetState(old(machine), co, Running), co)
    {
      hide Sound, IsChain, Linked, JumpedIn, Next, SetState;
      EnterSound(machine, chain, co);
      chain := [co] + chain;
      Assign(co, Running);
      JumpIn(co);
    }

    method Assign(co: Coro, state: State)
      requires Mirrors() && co in live
      modifies co`state, this`machine
      ensures Mirrors() && machine == SetState(old(machine), co, state)
      ensures co.state == state && machine.current == old(machine).current
      ensures machine.coros.Keys == old(machine).coros.Keys && machine.coros[co].prev == old(machine).coros[co].prev
    {
      co.state := state;
      machine := SetState(machine, co, state);
    }

    /** _mco_prepare_jumpin. */
    method JumpIn(co: Coro)
      requires Mirrors() && co in live && (currentCo != null ==> currentCo in live)
      modifies this`currentCo, this`machine, live
      ensures Mirrors() && machine == JumpedIn(old(machine), co)
    {
      var prev := currentCo;
      co.prevCo := prev;
      machine := SetPrev(machine, co, machine.current);
      if prev != null {
        prev.state := Normal;
        machine := SetState(machine, prev, Normal);
      }
      currentCo := co;
      machine := machine.(current := Link(co));
    }

    /** _mco_prepare_jumpout. */
    method JumpOut(co: Coro)
      requires Mirrors() && co in live && (co.prevCo != null ==> co.prevCo in live)
      modifies this`currentCo, this`machine, live
      ensures Mirrors() && machine == JumpedOut(old(machine), co)
    {
      var prev := co.prevCo;
      co.prevCo := null;
      machine := SetPrev(machine, co, None);
      if prev != null {
        prev.state := Running;
        machine := SetState(machine, prev, Running);
      }
      currentCo := prev;
      machine := machine.(current := Link(prev));
    }

    /** The running coroutine takes its new state and hands control back to its resumer. */
    method Leave(co: Coro, state: State)
      requires Valid() && chain != [] && co == chain[0] && state in {Suspended, Dead}
      modifies this, live
      ensures Valid() && live == old(live)
      ensures machine == JumpedOut(SetState(old(machine), co, state), co)
    {
      hide Sound, IsChain, Linked, JumpedOut, SetState;
      LeaveSound(machine, chain, state);
      Assign(co, state);
      JumpOut(co);
      chain := chain[1..];
    }

    /** mco_yield; `overflow` is the outcome of the stack check. */
    method Yield(co: Coro?, overflow: bool) returns (res: Result)
      requires Valid() && (co != null ==> co in live)
      modifies this, live
      ensures Valid() && live == old(live)
      ensures co == null ==> res == InvalidCoroutine && machine == old(machine)
      ensures co != null ==> machine == Next(old(machine), Op.Yield(co, overflow))
      ensures co != null ==> res == if overflow then StackOverflow else if old(co.state) == Running then Success else NotRunning
      ensures res != Success ==> machine == old(machine)
      ensures res == Success ==> old(currentCo) == co && co.state == Suspended && co.prevCo == null
      ensures res == Success ==> currentCo == old(co.prevCo) && (currentCo != null ==> currentCo.state == Running)
      ensures forall c | c in live && c != co && c != currentCo :: c.state == old(c.state) && c.prevCo == old(c.prevCo)
    {
      if co == null {
        return InvalidCoroutine;
      }
      if overflow {
        return StackOverflow;
      }
      if co.state != Running {
        return NotRunning;
      }
      RunningIsCurrent(machine, chain, co);
      Leave(co, Suspended);
      return Success;
    }

    /** _mco_main behind the return of the running coroutine's function. */
    method Finish()
      requires Valid() && currentCo != null
      modifies this, live
      ensures Valid() && live == old(live) && machine == Next(old(machine), Op.Finish)
      ensures old(currentCo).state == Dead && old(currentCo).prevCo == null && currentCo == old(currentCo.prevCo)
      ensures currentCo != null ==> currentCo.state == Running
      ensures forall c | c in live && c != old(currentCo) && c != currentCo ::
                c.state == old(c.state) && c.prevCo == old(c.prevCo)
    {
      assert machine.current == Some(chain[0]);
      Leave(currentCo, Dead);
    }

    /** mco_destroy: refused for a member of the chain, otherwise the coroutine is gone. */
    method Destroy(co: Coro?) returns (res: Result)
      requires Valid() && (co != null ==> co in live)
      modifies this, live
      ensures Valid()
      ensures co == null ==> res == InvalidCoroutine && machine == old(machine)
      ensures co != null ==> machine == Next(old(machine), Op.Destroy(co))
      ensures co != null ==> res == if co in old(chain) then InvalidOperation else Success
      ensures res == Success ==> live == old(live) - {co} && currentCo == old(currentCo)
      ensures res != Success ==> live == old(live) && machine == old(machine)
      ensures forall c | c in live :: c.state == old(c.state) && c.prevCo == old(c.prevCo)
    {
      if co == null {
        return InvalidCoroutine;
      }
      assert co.state in {Running, Normal} <==> co in chain;
      if !(co.state == Suspended || co.state == Dead) {
        return InvalidOperation;
      }
      DropSound(machine, chain, co);
      hide Sound, IsChain, Linked, Next;
      co.state := Dead;
      live := live - {co};
      machine := machine.(coros := machine.coros - {co});
      return Success;
    }
  }
}
