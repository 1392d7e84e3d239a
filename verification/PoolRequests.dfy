/**
  What the pool's callers asked for, in bytes: every chunk handed out holds at least the bytes last asked of
  it, and wastes less than a cell of 16 bytes for rounding and at most two cells of slack.
*/
module PoolRequests {
  import opened Bytes
  import opened PoolHeap

  /** The bytes of a chunk behind its header, which the caller may use. */
  function Payload(h: Heap, a: nat): int
    requires a in h.sizes
  {
    var cells: int := h.sizes[a];
    16 * cells - 16
  }

  /** A chunk of enough cells, and at most `slack` more, holds the bytes it is for, and wastes less than a cell and the slack. */
  lemma CellsHold(size: nat, cells: nat, slack: nat)
    requires Cells(size) <= cells <= Cells(size) + slack
    ensures size <= 16 * cells - 16 < size + 16 + 16 * slack
  {
  }

  /** The chunk that an allocation hands out. */
  lemma MallocServes(h: Heap, size: nat)
    requires Sound(h) && Malloced(h, Cells(size)).1.Some?
    ensures var (h', b) := Malloced(h, Cells(size));
            b.value in h'.sizes && size <= Payload(h', b.value) < size + 32
  {
    MallocedSound(h, Cells(size));
    var (h', b) := Malloced(h, Cells(size));
    CellsHold(size, h'.sizes[b.value], 1);
    hide Sound, Malloced, Cells;
  }

  lemma AddressNotZero(h: Heap, a: nat)
    requires Sound(h) && a in h.sizes
    ensures a != 0
  {
  }

  /** What a reallocation leaves at `c`: the bytes asked for, and no more waste than the old chunk may have had. */
  predicate Holds(h: Heap, c: nat, size: nat, thrifty: bool) {
    c in h.sizes && size <= Payload(h, c) && (thrifty ==> Payload(h, c) < size + 48)
  }

  /** The chunk that a reallocation gives back, in each of its outcomes. */
  lemma ReallocHolds(h: Heap, a: nat, oldSize: nat, size: nat)
    requires Sound(h) && Allowed(h, Op.Realloc(a, oldSize, size))
    requires oldSize < size && Cells(oldSize) <= h.sizes[a]
    ensures var h' := Next(h, Op.Realloc(a, oldSize, size));
            var thrifty := h.sizes[a] <= Cells(oldSize) + 2;
            match PlanFor(h, a, oldSize, size)
            case Refuse => true
            case Copy => (var b := Malloced(h, Cells(size)).1; b.Some? ==> Holds(h', b.value, size, thrifty))
            case _ => Holds(h', a, size, thrifty)
  {
    hide Tiled, Grown, Freed, Malloced, CanGrow;
    match PlanFor(h, a, oldSize, size) {
      case Refuse =>
      case Keep =>
        CellsHold(size, h.sizes[a], if h.sizes[a] <= Cells(size) + 2 then 2 else h.sizes[a]);
      case Grow =>
        GrownSound(h, a, Cells(size));
        CellsHold(size, Grown(h, a, Cells(size)).sizes[a], 2);
      case Copy =>
        if Malloced(h, Cells(size)).1.Some? {
          CopyHolds(h, a, size);
        }
    }
  }

  lemma CopyHolds(h: Heap, a: nat, size: nat)
    requires Sound(h) && IsAllocated(h, a) && Malloced(h, Cells(size)).1.Some?
    ensures var (h', b) := Malloced(h, Cells(size)); Holds(Freed(h', a), b.value, size, true)
  {
    var (h', b) := Malloced(h, Cells(size));
    MallocServes(h, size);
    MallocedSound(h, Cells(size));
    FreedSound(h', a);
    AddressNotZero(h', b.value);
    hide Sound, Malloced, Freed, Cells;
  }

  /** It is the lowest free chunk that is large enough, and there is none only if no free chunk is. */
  lemma MallocTakesLowest(h: Heap, size: nat)
    requires Sound(h)
    ensures var b := Malloced(h, size).1;
            && (b.Some? ==> b.value in h.frees && h.sizes[b.value] >= size)
            && forall a | a in h.frees && h.sizes[a] >= size :: b.Some? && b.value <= a
  {
    var k := FirstFit(h, size, 0);
    forall a | a in h.frees && h.sizes[a] >= size
      ensures k < |h.frees| && h.frees[k] <= a
    {
      var i :| 0 <= i < |h.frees| && h.frees[i] == a;
      if k < i {
        assert End(h.sizes, h.frees[k]) < a;
      }
    }
    hide Taken;
  }

  // ---------------------------------------------------------------------------------------
  // Runs
  // ---------------------------------------------------------------------------------------

  /** The bytes last asked of each chunk in use. */
  type Requests = map<nat, nat>

  /** The chunk, if it is in use, holds what was asked of it; less than three cells are wasted. */
  predicate Served(h: Heap, asked: Requests, a: nat) {
    && (a in asked <==> a != 0 && IsAllocated(h, a))
    && (a in asked ==> a in h.sizes && asked[a] <= Payload(h, a) < asked[a] + 48)
  }

  ghost predicate Serves(h: Heap, asked: Requests) {
    forall a :: Served(h, asked, a)
  }

  /** A caller that tells a reallocation the size it asked for before, and a larger one. */
  predicate Honest(asked: Requests, op: Op) {
    op.Realloc? ==> op.a in asked && op.oldSize == asked[op.a] < op.size
  }

  /** What has been asked for after a call. */
  function Asked(h: Heap, asked: Requests, op: Op): Requests
    requires Sound(h)
  {
    match op
    case Malloc(size) =>
      var b := Malloced(h, Cells(size)).1;
      if size < ArenaBytes(h) && b.Some? then asked[b.value := size] else asked
    case Free(a) => asked - {a}
    case Realloc(a, oldSize, size) =>
      match PlanFor(h, a, oldSize, size)
      case Refuse => asked
      case Copy =>
        var b := Malloced(h, Cells(size)).1;
        if b.Some? then (asked - {a})[b.value := size] else asked
      case _ => asked[a := size]
  }

  lemma FreshServes(cells: nat)
    requires cells >= 3
    ensures Sound(Fresh(cells)) && Serves(Fresh(cells), map[])
  {
    FreshSound(cells);
  }

  /** A chunk that a call does not concern. */
  lemma OtherServed(h: Heap, asked: Requests, h': Heap, asked': Requests, a: nat)
    requires Served(h, asked, a) && a != 0 && (IsAllocated(h', a) <==> IsAllocated(h, a))
    requires a in asked' <==> a in asked
    requires a in asked' ==> asked'[a] == asked[a]
    requires IsAllocated(h, a) ==> h'.sizes[a] == h.sizes[a]
    ensures Served(h', asked', a)
  {
  }

  lemma NullServed(h: Heap, asked: Requests, h': Heap, asked': Requests)
    requires Served(h, asked, 0) && 0 !in asked'
    ensures Served(h', asked', 0)
  {
  }

  lemma MallocKeepsServing(h: Heap, asked: Requests, size: nat)
    requires Sound(h) && Serves(h, asked) && Malloced(h, Cells(size)).1.Some?
    ensures var (h', b) := Malloced(h, Cells(size)); Serves(h', asked[b.value := size]) && b.value !in asked
  {
    Mallocs(h, size);
    hide Sound, Malloced, IsAllocated, Cells, Served;
    MallocedSound(h, Cells(size));
    MallocServes(h, size);
    var (h', b) := Malloced(h, Cells(size));
    AddressNotZero(h', b.value);
    NotAsked(h, asked, b.value);
    assert Served(h, asked, 0);
    NotZeroAsked(h, asked);
    var next := asked[b.value := size];
    forall a
      ensures Served(h', next, a)
    {
      if a == b.value {
        NewServed(h', asked, a, size);
      } else if a == 0 {
        NullServed(h, asked, h', next);
      } else {
        assert Served(h, asked, a);
        OtherServed(h, asked, h', next, a);
      }
    }
  }

  /** What allocation needs to be asked. */
  lemma Mallocs(h: Heap, size: nat)
    requires Sound(h)
    ensures FreeListed(h.sizes, h.frees) && 0 < Cells(size)
  {
  }

  lemma NotAsked(h: Heap, asked: Requests, a: nat)
    requires Serves(h, asked) && !IsAllocated(h, a)
    ensures a !in asked
  {
    assert Served(h, asked, a);
  }

  lemma NotZeroAsked(h: Heap, asked: Requests)
    requires Served(h, asked, 0)
    ensures 0 !in asked
  {
  }

  lemma NewServed(h: Heap, asked: Requests, a: nat, size: nat)
    requires a != 0 && IsAllocated(h, a) && size <= Payload(h, a) < size + 48
    ensures Served(h, asked[a := size], a)
  {
  }

  lemma GoneServed(h: Heap, asked: Requests, a: nat)
    requires !IsAllocated(h, a)
    ensures Served(h, asked - {a}, a)
  {
  }

  lemma FreeKeepsServing(h: Heap, asked: Requests, a: nat)
    requires Sound(h) && Serves(h, asked) && IsAllocated(h, a)
    ensures Serves(Freed(h, a), asked - {a})
  {
    var h' := Freed(h, a);
    FreedSound(h, a);
    AddressNotZero(h, a);
    hide Sound, Freed, IsAllocated, Served;
    assert Served(h, asked, 0);
    NotZeroAsked(h, asked);
    var next := asked - {a};
    forall b
      ensures Served(h', next, b)
    {
      if b == a {
        GoneServed(h', asked, a);
      } else if b == 0 {
        NullServed(h, asked, h', next);
      } else {
        assert Served(h, asked, b);
        OtherServed(h, asked, h', next, b);
      }
    }
  }

  lemma GrowKeepsServing(h: Heap, asked: Requests, a: nat, size: nat)
    requires Sound(h) && Serves(h, asked) && IsAllocated(h, a) && CanGrow(h, a, Cells(size))
    ensures Serves(Grown(h, a, Cells(size)), asked[a := size])
  {
    GrownSound(h, a, Cells(size));
    AddressNotZero(h, a);
    var h' := Grown(h, a, Cells(size));
    CellsHold(size, h'.sizes[a], 2);
    hide Sound, Grown, IsAllocated, CanGrow, Cells, Served;
    assert Served(h, asked, 0);
    NotZeroAsked(h, asked);
    var next := asked[a := size];
    forall b
      ensures Served(h', next, b)
    {
      if b == a {
        NewServed(h', asked, a, size);
      } else if b == 0 {
        NullServed(h, asked, h', next);
      } else {
        assert Served(h, asked, b);
        OtherServed(h, asked, h', next, b);
      }
    }
  }

  lemma KeepKeepsServing(h: Heap, asked: Requests, a: nat, size: nat)
    requires Serves(h, asked) && a in asked && Cells(asked[a]) == Cells(size) && asked[a] < size
    ensures Serves(h, asked[a := size])
  {
    assert Served(h, asked, a);
    CellsSame(asked[a], size, h.sizes[a]);
    hide Cells;
    var next := asked[a := size];
    forall b
      ensures Served(h, next, b)
    {
      assert Served(h, asked, b);
    }
  }

  /** Sizes that take equally many cells are held by the same chunks. */
  lemma CellsSame(was: nat, size: nat, cells: nat)
    requires Cells(was) == Cells(size) && was < size && was <= 16 * cells - 16 < was + 48
    ensures size <= 16 * cells - 16 < size + 48
  {
  }

  /** One call of an honest caller keeps every chunk in use large enough, and none too wasteful. */
  lemma StepServes(h: Heap, asked: Requests, op: Op)
    requires Sound(h) && Serves(h, asked) && Allowed(h, op) && Honest(asked, op)
    ensures Serves(Next(h, op), Asked(h, asked, op))
  {
    hide Sound, Serves, Malloced, Freed, Grown, CanGrow, IsAllocated, CopyFits;
    match op {
      case Malloc(size) =>
        if size < ArenaBytes(h) {
          MallocOrNot(h, asked, size);
        }
      case Free(a) => FreeKeepsServing(h, asked, a);
      case Realloc(a, oldSize, size) => ReallocServes(h, asked, a, size);
    }
  }

  lemma MallocOrNot(h: Heap, asked: Requests, size: nat)
    requires Sound(h) && Serves(h, asked)
    ensures var (h', b) := Malloced(h, Cells(size)); Serves(h', if b.Some? then asked[b.value := size] else asked)
  {
    MallocedSound(h, Cells(size));
    if Malloced(h, Cells(size)).1.Some? {
      MallocKeepsServing(h, asked, size);
    }
    hide Sound, Serves, Malloced, IsAllocated;
  }

  lemma InOtherOrder(asked: Requests, a: nat, b: nat, size: nat)
    requires a != b
    ensures asked[b := size] - {a} == (asked - {a})[b := size]
  {
  }

  /** A chunk in use stays so when another is allocated. */
  lemma StaysAllocated(h: Heap, a: nat, size: nat)
    requires Sound(h) && IsAllocated(h, a) && Malloced(h, Cells(size)).1.Some?
    ensures var (h', b) := Malloced(h, Cells(size)); Sound(h') && IsAllocated(h', a) && b.value != a
  {
    MallocedSound(h, Cells(size));
    hide Sound, Malloced;
  }

  lemma CopyServes(h: Heap, asked: Requests, a: nat, size: nat)
    requires Sound(h) && Serves(h, asked) && a in asked && Malloced(h, Cells(size)).1.Some?
    ensures var (h', b) := Malloced(h, Cells(size)); Serves(Freed(h', a), (asked - {a})[b.value := size])
  {
    Mallocs(h, size);
    hide Sound, Serves, Malloced, Freed, IsAllocated, Cells, Tiled, FreeListed;
    var (h', b) := Malloced(h, Cells(size));
    StillServed(h, asked, a);
    StaysAllocated(h, a, size);
    MallocKeepsServing(h, asked, size);
    FreeKeepsServing(h', asked[b.value := size], a);
    InOtherOrder(asked, a, b.value, size);
  }

  lemma StillServed(h: Heap, asked: Requests, a: nat)
    requires Serves(h, asked) && a in asked
    ensures IsAllocated(h, a) && a in h.sizes
  {
    assert Served(h, asked, a);
  }

  /** An allocation that finds nothing changes nothing. */
  lemma CopyOrNot(h: Heap, size: nat)
    requires Sound(h)
    ensures var (h', b) := Malloced(h, Cells(size)); b.None? ==> h' == h
  {
    MallocedSound(h, Cells(size));
  }

  lemma ReallocServes(h: Heap, asked: Requests, a: nat, size: nat)
    requires Sound(h) && Serves(h, asked) && a in asked && asked[a] < size && Allowed(h, Op.Realloc(a, asked[a], size))
    ensures var op := Op.Realloc(a, asked[a], size); Serves(Next(h, op), Asked(h, asked, op))
  {
    hide Sound, Serves, Malloced, Freed, Grown, CanGrow, IsAllocated, CopyFits, Cells;
    StillServed(h, asked, a);
    CopyOrNot(h, size);
    match PlanFor(h, a, asked[a], size) {
      case Refuse =>
      case Keep => KeepKeepsServing(h, asked, a, size);
      case Grow => GrowKeepsServing(h, asked, a, size);
      case Copy =>
        if Malloced(h, Cells(size)).1.Some? {
          CopyServes(h, asked, a, size);
        }
    }
  }

  /** What is served is enough for the next reallocation to be told the old size. */
  lemma ServedEnough(h: Heap, asked: Requests, a: nat)
    requires Served(h, asked, a) && a in asked
    ensures IsAllocated(h, a) && Cells(asked[a]) <= h.sizes[a] <= Cells(asked[a]) + 2
  {
  }

  /** Honest calls, each allowed where it is made. */
  ghost predicate HonestRun(h: Heap, asked: Requests, ops: seq<Op>)
    requires Sound(h)
    decreases |ops|
  {
    ops == [] ||
    (Allowed(h, ops[0]) && Honest(asked, ops[0])
     && (StepSound(h, ops[0]); HonestRun(Next(h, ops[0]), Asked(h, asked, ops[0]), ops[1..])))
  }

  /** The heap and the requests after a run. */
  ghost function After(h: Heap, asked: Requests, ops: seq<Op>): (Heap, Requests)
    requires Sound(h) && HonestRun(h, asked, ops)
    decreases |ops|
  {
    if ops == [] then (h, asked)
    else
      StepSound(h, ops[0]);
      After(Next(h, ops[0]), Asked(h, asked, ops[0]), ops[1..])
  }

  /**
    Main result: throughout a run every chunk in use holds the bytes last asked of it, and nothing is in use that was
    not asked for.
   */
  lemma {:induction false} RunServes(h: Heap, asked: Requests, ops: seq<Op>)
    requires Sound(h) && Serves(h, asked) && HonestRun(h, asked, ops)
    ensures var (h', asked') := After(h, asked, ops); Serves(h', asked')
    decreases |ops|
  {
    hide Sound, Serves, Next, Asked;
    if ops != [] {
      StepSound(h, ops[0]);
      StepServes(h, asked, ops[0]);
      RunServes(Next(h, ops[0]), Asked(h, asked, ops[0]), ops[1..]);
    }
  }
}
