/**
  The pool allocator over its memory: chunk headers and the linked free list in
  an array of 16-byte cells, proved to follow the heap of module PoolHeap.
 */
module PoolAllocator {
  import opened Bytes
  import opened PoolHeap
  import PoolRequests

  /** Sixteen bytes of the arena, read as a chunk header: its size and its link, 0 for null. */
  datatype Cell = Cell(size: nat, next: nat)

  function LinkAt(frees: seq<nat>, i: nat): nat {
    if i < |frees| then frees[i] else 0
  }

  predicate Linked(m: seq<Cell>, head: nat, frees: seq<nat>) {
    && head == LinkAt(frees, 0)
    && forall i | 0 <= i < |frees| :: frees[i] < |m| && m[frees[i]].next == LinkAt(frees, i + 1)
  }

  predicate Sized(m: seq<Cell>, sizes: Chunks) {
    forall a | a in sizes :: a < |m| && m[a].size == sizes[a]
  }

  /** The memory and list head hold exactly this heap. */
  predicate Shows(m: seq<Cell>, head: nat, h: Heap) {
    |m| == h.cells && Sized(m, h.sizes) && Linked(m, head, h.frees)
  }

  predicate Distinct(frees: seq<nat>) {
    forall i, j | 0 <= i < j < |frees| :: frees[i] != frees[j]
  }

  lemma SoundDistinct(h: Heap)
    requires Sound(h)
    ensures Distinct(h.frees) && forall i | 0 <= i < |h.frees| :: 0 < h.frees[i] && h.frees[i] in h.sizes
  {
  }

  lemma SoundLinks(h: Heap, k: nat)
    requires Sound(h) && k <= |h.frees|
    ensures LinkAt(h.frees, k) == 0 <==> k == |h.frees|
  {
  }

  // ---------------------------------------------------------------------------------------
  // Links
  // ---------------------------------------------------------------------------------------

  /** The memory after `prev->next = v`, `prev` being the free chunk before the `k`th. */
  function PrevSet(m: seq<Cell>, frees: seq<nat>, k: nat, v: nat): seq<Cell>
    requires k <= |frees| && (k > 0 ==> frees[k - 1] < |m|)
  {
    if k == 0 then m else m[frees[k - 1] := m[frees[k - 1]].(next := v)]
  }

  /** The list head after `ctx->free_list = v` when there is no `prev`. */
  function HeadSet(head: nat, k: nat, v: nat): nat {
    if k == 0 then v else head
  }

  lemma Unlinks(m: seq<Cell>, head: nat, frees: seq<nat>, k: nat)
    requires Linked(m, head, frees) && Distinct(frees) && k < |frees|
    ensures var v := m[frees[k]].next;
            Linked(PrevSet(m, frees, k, v), HeadSet(head, k, v), Without(frees, k))
  {
    WithoutAt(frees, k);
    hide Without;
    var f, m' := Without(frees, k), PrevSet(m, frees, k, m[frees[k]].next);
    forall i | 0 <= i < |f|
      ensures f[i] < |m'| && m'[f[i]].next == LinkAt(f, i + 1)
    {
      if i < k {
        assert f[i] == frees[i];
      } else {
        assert f[i] == frees[i + 1];
      }
    }
  }

  /** `b` takes the place of the `k`th, having its link already; other links are those of `m`. */
  lemma Relinks(m: seq<Cell>, m1: seq<Cell>, head: nat, frees: seq<nat>, k: nat, b: nat)
    requires Linked(m, head, frees) && Distinct(frees) && k < |frees| && |m1| == |m| && b < |m|
    requires m1[b].next == LinkAt(frees, k + 1)
    requires forall i | 0 <= i < |frees| && i != k :: frees[i] != b && m1[frees[i]].next == m[frees[i]].next
    ensures Linked(PrevSet(m1, frees, k, b), HeadSet(head, k, b), frees[k := b])
  {
    var f, m' := frees[k := b], PrevSet(m1, frees, k, b);
    forall i | 0 <= i < |f|
      ensures f[i] < |m'| && m'[f[i]].next == LinkAt(f, i + 1)
    {
    }
  }

  lemma Inserts(m: seq<Cell>, m1: seq<Cell>, head: nat, frees: seq<nat>, k: nat, b: nat)
    requires Linked(m, head, frees) && Distinct(frees) && k <= |frees| && |m1| == |m| && b < |m|
    requires m1[b].next == LinkAt(frees, k) && b !in frees
    requires forall i | 0 <= i < |frees| :: m1[frees[i]].next == m[frees[i]].next
    ensures Linked(PrevSet(m1, frees, k, b), HeadSet(head, k, b), With(frees, k, b))
  {
    WithAt(frees, k, b);
    hide With;
    var f, m' := With(frees, k, b), PrevSet(m1, frees, k, b);
    forall i | 0 <= i < |f|
      ensures f[i] < |m'| && m'[f[i]].next == LinkAt(f, i + 1)
    {
      if i < k {
        assert f[i] == frees[i] && frees[i] != b;
      } else if i > k {
        assert f[i] == frees[i - 1] && frees[i - 1] != b;
      }
    }
  }

  // ---------------------------------------------------------------------------------------
  // Payloads
  // ---------------------------------------------------------------------------------------

  /** A chunk header, or a cell inside a free chunk. */
  ghost predicate IsOverhead(h: Heap, x: nat) {
    x in h.sizes || exists b :: b in h.frees && b in h.sizes && b < x < End(h.sizes, b)
  }

  /** Only overhead cells differ. */
  ghost predicate OverheadChanged(h: Heap, m: seq<Cell>, m': seq<Cell>) {
    |m'| == |m| && forall x: nat | x < |m| && m'[x] != m[x] :: IsOverhead(h, x)
  }

  lemma InteriorNotOverhead(h: Heap, a: nat, x: nat)
    requires Sound(h) && IsAllocated(h, a) && a < x < End(h.sizes, a)
    ensures !IsOverhead(h, x)
  {
    forall b | b in h.sizes
      ensures b != x
    {
      if a < b {
        assert End(h.sizes, a) <= b;
      }
    }
    forall b | b in h.frees && b in h.sizes
      ensures !(b < x < End(h.sizes, b))
    {
      if a < b {
        assert End(h.sizes, a) <= b;
      } else {
        assert End(h.sizes, b) <= a;
      }
    }
  }

  /** Overhead is nobody's payload: every allocated chunk's bytes survive when only overhead changes. */
  lemma PayloadsKept(h: Heap, m: seq<Cell>, m': seq<Cell>, a: nat)
    requires Sound(h) && OverheadChanged(h, m, m') && IsAllocated(h, a) && End(h.sizes, a) <= |m|
    ensures m'[a + 1..End(h.sizes, a)] == m[a + 1..End(h.sizes, a)]
  {
    forall x: nat | a < x < End(h.sizes, a)
      ensures m'[x] == m[x]
    {
      InteriorNotOverhead(h, a, x);
    }
  }

  // ---------------------------------------------------------------------------------------
  // What the writes of each operation do to the heap
  // ---------------------------------------------------------------------------------------

  /** Setting a link changes no size, and a header only. */
  lemma PrevSetSized(m: seq<Cell>, sizes: Chunks, frees: seq<nat>, k: nat, v: nat)
    requires Sized(m, sizes) && k <= |frees| && (k > 0 ==> frees[k - 1] < |m|)
    ensures |PrevSet(m, frees, k, v)| == |m| && Sized(PrevSet(m, frees, k, v), sizes)
  {
  }

  lemma JoinedSize(sizes: Chunks, a: nat)
    requires a in sizes && End(sizes, a) in sizes
    ensures a in Join(sizes, a) && Join(sizes, a)[a] == sizes[a] + sizes[End(sizes, a)]
  {
  }

  lemma PrevSetOverhead(m: seq<Cell>, h: Heap, k: nat, v: nat)
    requires k <= |h.frees| && (k > 0 ==> h.frees[k - 1] < |m| && h.frees[k - 1] in h.sizes)
    ensures OverheadChanged(h, m, PrevSet(m, h.frees, k, v))
  {
  }

  lemma NothingChanged(h: Heap, m: seq<Cell>)
    ensures OverheadChanged(h, m, m)
  {
  }

  lemma HoldsHead(m: seq<Cell>, head: nat, h: Heap)
    requires Shows(m, head, h)
    ensures head == LinkAt(h.frees, 0) && |m| == h.cells
  {
  }

  lemma OverheadChangedTrans(h: Heap, m: seq<Cell>, m': seq<Cell>, m'': seq<Cell>)
    requires OverheadChanged(h, m, m') && OverheadChanged(h, m', m'')
    ensures OverheadChanged(h, m, m'')
  {
    hide IsOverhead;
  }

  lemma UnlinkHolds(m: seq<Cell>, head: nat, h: Heap, k: nat)
    requires Sound(h) && Shows(m, head, h) && k < |h.frees|
    ensures var v := m[h.frees[k]].next;
            var m' := PrevSet(m, h.frees, k, v);
            && Sound(WholeTaken(h, k)) && Shows(m', HeadSet(head, k, v), WholeTaken(h, k))
            && OverheadChanged(h, m, m')
  {
    hide Tiled, FreeListed, Linked, Without, PrevSet, HeadSet, OverheadChanged, Sized;
    SoundDistinct(h);
    HoldsAt(m, head, h, k);
    Unlinks(m, head, h.frees, k);
    WholeTakenSound(h, k);
    if k > 0 {
      HoldsAt(m, head, h, k - 1);
    }
    PrevSetSized(m, h.sizes, h.frees, k, m[h.frees[k]].next);
    PrevSetOverhead(m, h, k, m[h.frees[k]].next);
  }

  lemma HoldsAt(m: seq<Cell>, head: nat, h: Heap, k: nat)
    requires Shows(m, head, h) && k < |h.frees| && h.frees[k] in h.sizes
    ensures h.frees[k] < |m| && m[h.frees[k]] == Cell(h.sizes[h.frees[k]], LinkAt(h.frees, k + 1))
  {
  }

  /** The split chunk's header and the remainder's, before the remainder is linked. */
  function SplitWrites(m: seq<Cell>, a: nat, size: nat): seq<Cell>
    requires a < |m| && a + size < |m| && size <= m[a].size
  {
    m[a + size := Cell(m[a].size - size, m[a].next)][a := m[a].(size := size)]
  }

  lemma SplitWritesKeep(m: seq<Cell>, h: Heap, a: nat, size: nat)
    requires Sized(m, h.sizes) && a in h.frees && a in h.sizes && 0 < size < h.sizes[a] && a + size < |m|
    ensures Sized(SplitWrites(m, a, size), Split(h.sizes, a, size)) && |SplitWrites(m, a, size)| == |m|
    ensures OverheadChanged(h, m, SplitWrites(m, a, size))
  {
    assert IsOverhead(h, a + size);
  }

  lemma SplitHolds(m: seq<Cell>, head: nat, h: Heap, k: nat, size: nat)
    requires Sound(h) && Shows(m, head, h) && k < |h.frees| && h.frees[k] in h.sizes && 0 < size < h.sizes[h.frees[k]]
    ensures var a := h.frees[k];
            && a + size < |m| && 0 < a && size <= m[a].size
            && var m' := PrevSet(SplitWrites(m, a, size), h.frees, k, a + size);
            && Sound(SplitTaken(h, k, size)) && Shows(m', HeadSet(head, k, a + size), SplitTaken(h, k, size))
            && OverheadChanged(h, m, m')
  {
    hide Tiled, FreeListed, PrevSet, HeadSet, OverheadChanged, IsOverhead, Sized, Split, Linked, Distinct, IsAllocated, SameAllocated;
    var a := h.frees[k];
    SoundDistinct(h);
    HoldsAt(m, head, h, k);
    InArena(h.cells, h.sizes, a);
    SplitTiled(h.cells, h.sizes, a, size);
    SplitTakenSound(h, k, size);
    var m1 := SplitWrites(m, a, size);
    SplitWritesLinks(m, head, h, k, size);
    SplitWritesKeep(m, h, a, size);
    if k > 0 {
      HoldsAt(m, head, h, k - 1);
    }
    PrevSetSized(m1, Split(h.sizes, a, size), h.frees, k, a + size);
    PrevSetOverhead(m1, h, k, a + size);
    OverheadChangedTrans(h, m, m1, PrevSet(m1, h.frees, k, a + size));
  }

  lemma SplitWritesLinks(m: seq<Cell>, head: nat, h: Heap, k: nat, size: nat)
    requires Linked(m, head, h.frees) && Distinct(h.frees) && k < |h.frees| && (forall i | 0 <= i < |h.frees| :: h.frees[i] in h.sizes)
    requires h.frees[k] + size < |m| && 0 < size <= m[h.frees[k]].size && h.frees[k] + size !in h.sizes
    ensures k > 0 ==> h.frees[k - 1] < |m|
    ensures var a := h.frees[k];
            Linked(PrevSet(SplitWrites(m, a, size), h.frees, k, a + size), HeadSet(head, k, a + size), h.frees[k := a + size])
  {
    hide PrevSet, HeadSet;
    Relinks(m, SplitWrites(m, h.frees[k], size), head, h.frees, k, h.frees[k] + size);
  }

  /** The list links of `prev` and of the chunk put between it and the `k`th. */
  function InsertWrites(m: seq<Cell>, frees: seq<nat>, k: nat, a: nat): seq<Cell>
    requires k <= |frees| && (k > 0 ==> frees[k - 1] < |m|) && a < |m|
  {
    PrevSet(m, frees, k, a)[a := m[a].(next := LinkAt(frees, k))]
  }

  lemma InsertWritesLinks(m: seq<Cell>, head: nat, frees: seq<nat>, k: nat, a: nat)
    requires Linked(m, head, frees) && Distinct(frees) && k <= |frees| && a < |m| && a !in frees
    ensures k > 0 ==> frees[k - 1] < |m|
    ensures Linked(InsertWrites(m, frees, k, a), HeadSet(head, k, a), With(frees, k, a))
  {
    var m1 := m[a := m[a].(next := LinkAt(frees, k))];
    Inserts(m, m1, head, frees, k, a);
    assert k > 0 ==> frees[k - 1] in frees;
    assert InsertWrites(m, frees, k, a) == PrevSet(m1, frees, k, a);
  }

  lemma InsertWritesKeep(m: seq<Cell>, h: Heap, k: nat, a: nat)
    requires Sized(m, h.sizes) && k <= |h.frees| && (k > 0 ==> h.frees[k - 1] in h.sizes) && a in h.sizes && a !in h.frees
    ensures var m' := InsertWrites(m, h.frees, k, a);
            |m'| == |m| && Sized(m', h.sizes) && OverheadChanged(h, m, m')
  {
    assert k > 0 ==> h.frees[k - 1] in h.frees;
  }

  /** The `k`th free chunk's header after it has taken in the next. */
  function MergeWrites(m: seq<Cell>, a: nat, b: nat): seq<Cell>
    requires a < |m| && b < |m|
  {
    m[a := Cell(m[a].size + m[b].size, m[b].next)]
  }

  lemma MergeWritesHolds(m: seq<Cell>, head: nat, h: Heap, k: nat)
    requires Shows(m, head, h) && Sorted(h.sizes, h.frees) && Touches(h.sizes, h.frees, k)
    ensures Shows(MergeWrites(m, h.frees[k], h.frees[k + 1]), head, Merged(h, k))
  {
    var a, b := h.frees[k], h.frees[k + 1];
    assert Distinct(h.frees);
    Unlinks(m, head, h.frees, k + 1);
    LinkedResized(PrevSet(m, h.frees, k + 1, m[b].next), MergeWrites(m, a, b), head, Without(h.frees, k + 1));
    hide Linked, Without, Sorted, Distinct;
    assert Sized(MergeWrites(m, a, b), Join(h.sizes, a));
  }

  lemma LinkedResized(m: seq<Cell>, m': seq<Cell>, head: nat, frees: seq<nat>)
    requires Linked(m, head, frees) && |m'| == |m| && forall x | 0 <= x < |m| :: m'[x].next == m[x].next
    ensures Linked(m', head, frees)
  {
  }

  /** A merge attempt on the memory. */
  function MaybeMergeWrites(m: seq<Cell>, h: Heap, k: int): seq<Cell>
    requires Sized(m, h.sizes)
  {
    if 0 <= k && Touches(h.sizes, h.frees, k) then MergeWrites(m, h.frees[k], h.frees[k + 1]) else m
  }

  lemma MaybeMergeHolds(m: seq<Cell>, head: nat, h: Heap, k: int)
    requires Shows(m, head, h) && Sorted(h.sizes, h.frees)
    ensures Shows(MaybeMergeWrites(m, h, k), head, MaybeMerged(h, k))
  {
    hide Sorted, Linked, Merged;
    if 0 <= k && Touches(h.sizes, h.frees, k) {
      MergeWritesHolds(m, head, h, k);
    }
  }

  lemma MaybeMergeOverhead(m: seq<Cell>, h: Heap, h': Heap, k: int)
    requires Sized(m, h'.sizes) && h'.sizes.Keys <= h.sizes.Keys
    ensures OverheadChanged(h, m, MaybeMergeWrites(m, h', k))
  {
  }

  lemma InsertHolds(m: seq<Cell>, head: nat, h: Heap, k: nat, a: nat)
    requires Sound(h) && Shows(m, head, h) && IsAllocated(h, a) && k <= |h.frees| && a < |m|
    requires k > 0 ==> h.frees[k - 1] < |m|
    ensures Shows(InsertWrites(m, h.frees, k, a), HeadSet(head, k, a), h.(frees := With(h.frees, k, a)))
    ensures OverheadChanged(h, m, InsertWrites(m, h.frees, k, a))
  {
    hide Tiled, FreeListed, Linked, Sized, InsertWrites, With, OverheadChanged;
    SoundDistinct(h);
    InsertWritesLinks(m, head, h.frees, k, a);
    InsertWritesKeep(m, h, k, a);
  }

  lemma SizeKept(m: seq<Cell>, frees: seq<nat>, k: nat, v: nat, x: nat)
    requires k <= |frees| && (k > 0 ==> frees[k - 1] < |m|) && x < |m|
    ensures PrevSet(m, frees, k, v)[x].size == m[x].size
  {
  }

  lemma HeaderOf(m: seq<Cell>, head: nat, h: Heap, a: nat)
    requires Shows(m, head, h) && a in h.sizes
    ensures a < |m| && m[a].size == h.sizes[a]
  {
  }

  /** The list after a chunk has been put back in its place. */
  lemma PutBackList(h: Heap, k: nat, a: nat)
    requires Sound(h) && IsAllocated(h, a) && k == Below(h.frees, a, 0)
    ensures var f := With(h.frees, k, a);
            && Sorted(h.sizes, f) && k < |f| && f[k] == a && 0 < a && (k > 0 ==> f[k - 1] == h.frees[k - 1] && 0 < f[k - 1])
            && Apart(h.sizes, f, {k - 1, k as int}) && Tiled(h.cells, h.sizes)
            && (if k + 1 < |f| then 0 < f[k + 1] == LinkAt(h.frees, k) else LinkAt(h.frees, k) == 0)
  {
    InsertedSorted(h.cells, h.sizes, h.frees, a);
    WithAt(h.frees, k, a);
    SoundDistinct(h);
    hide With, Below;
  }

  /** The comparison of addresses is the test for touching neighbours. */
  lemma MergeDecision(m: seq<Cell>, head: nat, h: Heap, a: nat, b: nat, k: int)
    requires Shows(m, head, h) && Sorted(h.sizes, h.frees)
    requires if 0 <= k && k + 1 < |h.frees| then 0 < a == h.frees[k] && 0 < b == h.frees[k + 1] else a == 0 || b == 0
    ensures Sized(m, h.sizes)
    ensures a == 0 || b == 0 ==> !(0 <= k && Touches(h.sizes, h.frees, k))
    ensures a != 0 && b != 0 ==>
              0 <= k && a < |m| && b < |m| && k + 1 < |h.frees| && a == h.frees[k] && b == h.frees[k + 1]
              && (a + m[a].size == b <==> Touches(h.sizes, h.frees, k))
  {
    hide Linked;
  }

  lemma CellsMonotone(oldSize: nat, size: nat)
    requires oldSize < size
    ensures 0 < Cells(oldSize) <= Cells(size)
  {
  }

  /** The test for growing in place, on the memory. */
  lemma GrowDecision(m: seq<Cell>, head: nat, h: Heap, a: nat, b: nat, k: nat, size: nat)
    requires Sound(h) && Shows(m, head, h) && IsAllocated(h, a) && k == Below(h.frees, a, 0) && b == LinkAt(h.frees, k)
    ensures a < |m| && (b != 0 ==> b < |m| && k < |h.frees|)
    ensures (b != 0 && a + m[a].size == b && m[a].size + m[b].size >= size) <==> CanGrow(h, a, size)
  {
    SoundDistinct(h);
    HeaderOf(m, head, h, a);
    if k < |h.frees| {
      HeaderOf(m, head, h, h.frees[k]);
    }
    hide Sound, Shows, Below;
  }

  lemma FirstMergeList(h: Heap, k: nat, a: nat)
    requires Tiled(h.cells, h.sizes) && Sorted(h.sizes, h.frees) && Apart(h.sizes, h.frees, {k - 1, k as int})
    requires k < |h.frees| && h.frees[k] == a
    ensures var h' := MaybeMerged(h, k);
            && Sorted(h'.sizes, h'.frees) && k < |h'.frees| && h'.frees[k] == a
            && (k > 0 ==> h'.frees[k - 1] == h.frees[k - 1]) && h'.sizes.Keys <= h.sizes.Keys
  {
    MaybeMergedSound(h, k, {k - 1, k as int});
    hide Tiled, Sorted, Apart;
    if Touches(h.sizes, h.frees, k) {
      WithoutAt(h.frees, k + 1);
      hide Without;
    }
  }

  /** Only overhead differs, and what lies behind the first `size` cells of chunk `a`. */
  ghost predicate ChangedBehind(h: Heap, a: nat, size: nat, m: seq<Cell>, m': seq<Cell>) {
    |m'| == |m| && forall x: nat | x < |m| && m'[x] != m[x] ::
      IsOverhead(h, x) || (a in h.sizes && a + size <= x < End(h.sizes, a))
  }

  /** The links and headers written when a chunk grows over the whole free chunk `b` above it. */
  function GrowWholeWrites(m: seq<Cell>, frees: seq<nat>, k: nat, a: nat): seq<Cell>
    requires k < |frees| && (k > 0 ==> frees[k - 1] < |m|) && a < |m| && frees[k] < |m|
  {
    var b := frees[k];
    PrevSet(m, frees, k, m[b].next)[a := m[a].(size := m[a].size + m[b].size)]
  }

  lemma GrowWholeLinks(m: seq<Cell>, head: nat, frees: seq<nat>, k: nat, a: nat)
    requires Linked(m, head, frees) && Distinct(frees) && k < |frees| && a < |m| && a !in frees
    ensures frees[k] < |m| && (k > 0 ==> frees[k - 1] < |m|)
    ensures Linked(GrowWholeWrites(m, frees, k, a), HeadSet(head, k, m[frees[k]].next), Without(frees, k))
  {
    Unlinks(m, head, frees, k);
    assert k > 0 ==> frees[k - 1] in frees;
    var v := m[frees[k]].next;
    LinkedResized(PrevSet(m, frees, k, v), GrowWholeWrites(m, frees, k, a), HeadSet(head, k, v), Without(frees, k));
  }

  lemma GrowWholeHolds(m: seq<Cell>, head: nat, h: Heap, a: nat)
    requires Sound(h) && Shows(m, head, h) && IsAllocated(h, a) && CanGrow(h, a, 0)
    ensures var k := Below(h.frees, a, 0);
            && a < |m| && h.frees[k] < |m| && (k > 0 ==> h.frees[k - 1] < |m|)
            && var m' := GrowWholeWrites(m, h.frees, k, a);
            && Shows(m', HeadSet(head, k, m[h.frees[k]].next), GrownWhole(h, a)) && OverheadChanged(h, m, m')
  {
    hide Tiled, FreeListed, Linked, Without, Below;
    var k := Below(h.frees, a, 0);
    SoundDistinct(h);
    GrowWholeLinks(m, head, h.frees, k, a);
    assert k > 0 ==> h.frees[k - 1] in h.frees && h.frees[k - 1] in h.sizes;
  }

  /** The links and headers written when a chunk grows to `size` cells and gives the rest back. */
  function GrowByWrites(m: seq<Cell>, frees: seq<nat>, k: nat, a: nat, size: nat): seq<Cell>
    requires k < |frees| && (k > 0 ==> frees[k - 1] < |m|) && a < |m| && frees[k] < |m|
    requires a + size < |m| && size <= m[a].size + m[frees[k]].size
  {
    var b, rest := frees[k], a + size;
    PrevSet(m, frees, k, rest)[rest := Cell(m[a].size + m[b].size - size, m[b].next)][a := m[a].(size := size)]
  }

  /** The same headers before the links are set. */
  function GrowByHeaders(m: seq<Cell>, b: nat, a: nat, size: nat): seq<Cell>
    requires a < |m| && b < |m| && a + size < |m| && size <= m[a].size + m[b].size
  {
    m[a + size := Cell(m[a].size + m[b].size - size, m[b].next)][a := m[a].(size := size)]
  }

  lemma GrowByOrder(m: seq<Cell>, frees: seq<nat>, k: nat, a: nat, size: nat)
    requires k < |frees| && a + size < |m| && frees[k] < |m| && 0 < size <= m[a].size + m[frees[k]].size
    requires k > 0 ==> frees[k - 1] < |m| && frees[k - 1] != a && frees[k - 1] != a + size
    ensures GrowByWrites(m, frees, k, a, size) == PrevSet(GrowByHeaders(m, frees[k], a, size), frees, k, a + size)
  {
  }

  lemma GrowByLinks(m: seq<Cell>, head: nat, frees: seq<nat>, k: nat, a: nat, size: nat)
    requires Linked(m, head, frees) && Distinct(frees) && k < |frees| && a + size < |m| && a !in frees && 0 < size
    requires frees[k] < |m| && size <= m[a].size + m[frees[k]].size
    requires forall i | 0 <= i < |frees| && i != k :: frees[i] != a + size
    ensures k > 0 ==> frees[k - 1] < |m|
    ensures Linked(GrowByWrites(m, frees, k, a, size), HeadSet(head, k, a + size), frees[k := a + size])
  {
    assert forall i | 0 <= i < |frees| :: frees[i] in frees;
    var m1 := GrowByHeaders(m, frees[k], a, size);
    assert forall i | 0 <= i < |frees| && i != k :: frees[i] < |m| && m1[frees[i]].next == m[frees[i]].next;
    assert m1[a + size].next == LinkAt(frees, k + 1);
    GrowByOrder(m, frees, k, a, size);
    hide GrowByWrites, GrowByHeaders, PrevSet, HeadSet;
    Relinks(m, m1, head, frees, k, a + size);
  }

  lemma GrowByRest(h: Heap, a: nat, size: nat)
    requires Sound(h) && IsAllocated(h, a) && CanGrow(h, a, size) && 0 < size < Join(h.sizes, a)[a]
    ensures a + size < h.cells
    ensures var k := Below(h.frees, a, 0);
            (forall i | 0 <= i < |h.frees| && i != k :: h.frees[i] != a + size) && h.frees[k] in h.frees
            && (a + size == h.frees[k] || a < a + size < h.frees[k] || h.frees[k] < a + size < End(h.sizes, h.frees[k]))
  {
    var k := Below(h.frees, a, 0);
    JoinTiled(h.cells, h.sizes, a);
    SplitTiled(h.cells, Join(h.sizes, a), a, size);
    InArena(h.cells, Join(h.sizes, a), a);
    forall i | 0 <= i < |h.frees| && i != k
      ensures h.frees[i] != a + size
    {
      assert h.frees[i] in h.frees && h.frees[i] != h.frees[k];
      assert h.frees[i] in Join(h.sizes, a);
    }
  }

  lemma GrowBySized(m: seq<Cell>, h: Heap, a: nat, size: nat)
    requires Sized(m, h.sizes) && CanGrow(h, a, size) && 0 < size < Join(h.sizes, a)[a] && a + size < |m|
    requires forall i | 0 <= i < |h.frees| :: h.frees[i] in h.sizes
    ensures var k := Below(h.frees, a, 0);
            var m' := GrowByWrites(m, h.frees, k, a, size);
            && |m'| == |m| && Sized(m', Split(Join(h.sizes, a), a, size))
  {
    hide Below;
  }

  lemma GrowByChanged(m: seq<Cell>, h: Heap, a: nat, size: nat)
    requires Sized(m, h.sizes) && CanGrow(h, a, size) && 0 < size < Join(h.sizes, a)[a] && a + size < |m|
    requires forall i | 0 <= i < |h.frees| :: h.frees[i] in h.sizes
    requires var b := h.frees[Below(h.frees, a, 0)];
             b in h.frees && (a + size == b || a < a + size < b || b < a + size < End(h.sizes, b))
    ensures ChangedBehind(h, a, size, m, GrowByWrites(m, h.frees, Below(h.frees, a, 0), a, size))
  {
    hide Below, Join;
  }

  lemma GrowByHolds(m: seq<Cell>, head: nat, h: Heap, a: nat, size: nat)
    requires Sound(h) && Shows(m, head, h) && IsAllocated(h, a) && CanGrow(h, a, size) && 0 < size < Join(h.sizes, a)[a]
    ensures var k := Below(h.frees, a, 0);
            && a + size < |m| && h.frees[k] < |m| && (k > 0 ==> h.frees[k - 1] < |m|)
            && size <= m[a].size + m[h.frees[k]].size
            && var m' := GrowByWrites(m, h.frees, k, a, size);
            && Shows(m', HeadSet(head, k, a + size), GrownBy(h, a, size)) && ChangedBehind(h, a, size, m, m')
  {
    hide Tiled, FreeListed, Linked, Below, GrowByWrites, Split, Join, ChangedBehind;
    var k := Below(h.frees, a, 0);
    SoundDistinct(h);
    GrowByRest(h, a, size);
    HeaderOf(m, head, h, a);
    HeaderOf(m, head, h, h.frees[k]);
    GrowByLinks(m, head, h.frees, k, a, size);
    GrowBySized(m, h, a, size);
    GrowByChanged(m, h, a, size);
  }

  /** Every allocated chunk but `a` has the same payload. */
  ghost predicate OthersKept(h: Heap, a: nat, m: seq<Cell>, m': seq<Cell>) {
    |m'| == |m| && forall c: nat, x: nat | IsAllocated(h, c) && c != a && c < x < End(h.sizes, c) && x < |m| :: m'[x] == m[x]
  }

  /** The first `n` cells of a chunk, header aside, have moved from `a` to `b`. */
  ghost predicate Moved(m: seq<Cell>, a: nat, m': seq<Cell>, b: nat, n: nat) {
    1 <= n && a + n <= |m| && b + n <= |m'| && m'[b + 1..b + n] == m[a + 1..a + n]
  }

  lemma MovedPrefix(m: seq<Cell>, a: nat, m': seq<Cell>, b: nat, n: nat, k: nat)
    requires Moved(m, a, m', b, n) && 1 <= k <= n
    ensures Moved(m, a, m', b, k)
  {
    assert m[a + 1..a + k] == m[a + 1..a + n][..k - 1] && m'[b + 1..b + k] == m'[b + 1..b + n][..k - 1];
  }

  lemma InArenaSound(h: Heap, a: nat)
    requires Sound(h) && a in h.sizes
    ensures 0 < a && 0 < h.sizes[a] && End(h.sizes, a) <= h.cells && FreeListed(h.sizes, h.frees)
  {
    InArena(h.cells, h.sizes, a);
  }

  lemma NothingMoved(h: Heap, a: nat, m: seq<Cell>, n: nat)
    requires 1 <= n && a + n <= |m|
    ensures OthersKept(h, a, m, m) && Moved(m, a, m, a, n)
  {
  }

  /** Whichever chunk a reallocation answers with is allocated. */
  lemma StillAllocated(h: Heap, a: nat, oldSize: nat, size: nat)
    requires Sound(h) && Allowed(h, Op.Realloc(a, oldSize, size))
    requires size < ArenaBytes(h) && Cells(oldSize) != Cells(size)
    ensures CanGrow(h, a, Cells(size)) ==> IsAllocated(Grown(h, a, Cells(size)), a)
    ensures var (h', b) := Malloced(h, Cells(size));
            !CanGrow(h, a, Cells(size)) && b.Some? ==> 0 < b.value && IsAllocated(Freed(h', a), b.value)
  {
    if CanGrow(h, a, Cells(size)) {
      GrownSound(h, a, Cells(size));
    } else {
      MallocedSound(h, Cells(size));
      var (h', b) := Malloced(h, Cells(size));
      if b.Some? {
        FreedSound(h', a);
      }
    }
  }

  /** Which way a reallocation goes, and where it leads. */
  lemma PlanCases(h: Heap, a: nat, oldSize: nat, size: nat)
    requires Sound(h) && Allowed(h, Op.Realloc(a, oldSize, size))
    ensures var plan, h' := PlanFor(h, a, oldSize, size), Next(h, Op.Realloc(a, oldSize, size));
            if size >= ArenaBytes(h) then plan.Refuse? && h' == h
            else if Cells(oldSize) == Cells(size) then plan.Keep? && h' == h
            else if CanGrow(h, a, Cells(size)) then plan.Grow? && h' == Grown(h, a, Cells(size))
            else
              var (h1, b) := Malloced(h, Cells(size));
              plan.Copy? && CopyFits(h, a, size) && h' == if b.Some? then Freed(h1, a) else h1
  {
    hide Sound, Malloced, Freed, Grown, CanGrow;
  }

  lemma BehindKeeps(h: Heap, a: nat, size: nat, n: nat, m: seq<Cell>, m': seq<Cell>)
    requires Sound(h) && IsAllocated(h, a) && ChangedBehind(h, a, size, m, m') && End(h.sizes, a) <= |m|
    requires 1 <= n <= size && n <= h.sizes[a]
    ensures OthersKept(h, a, m, m') && Moved(m, a, m', a, n)
  {
    forall c: nat, x: nat | IsAllocated(h, c) && c != a && c < x < End(h.sizes, c) && x < |m|
      ensures m'[x] == m[x]
    {
      InteriorNotOverhead(h, c, x);
      assert a < c ==> End(h.sizes, a) <= c;
      assert c < a ==> End(h.sizes, c) <= a;
    }
    forall x: nat | a < x < a + n
      ensures m'[x] == m[x]
    {
      InteriorNotOverhead(h, a, x);
    }
  }

  lemma OverheadIsBehind(h: Heap, a: nat, size: nat, m: seq<Cell>, m': seq<Cell>)
    requires OverheadChanged(h, m, m')
    ensures ChangedBehind(h, a, size, m, m')
  {
  }

  /** The memory after `n` cells of payload were copied from chunk `a` to chunk `b`. */
  ghost predicate Copied(m: seq<Cell>, m': seq<Cell>, a: nat, b: nat, n: nat) {
    && Moved(m, a, m', b, n) && |m'| == |m|
    && forall x: nat | x < |m| && !(b < x < b + n) :: m'[x] == m[x]
  }

  lemma CopyHolds(m: seq<Cell>, m': seq<Cell>, head: nat, h: Heap, a: nat, b: nat, n: nat)
    requires Sound(h) && Shows(m, head, h) && IsAllocated(h, b) && n <= h.sizes[b] && Copied(m, m', a, b, n)
    ensures Shows(m', head, h) && OthersKept(h, b, m, m')
  {
    forall x: nat | b < x < b + n
      ensures x !in h.sizes
    {
      InteriorNotOverhead(h, b, x);
    }
    assert forall i | 0 <= i < |h.frees| :: h.frees[i] in h.sizes;
    forall c: nat, x: nat | IsAllocated(h, c) && c != b && c < x < End(h.sizes, c) && x < |m|
      ensures m'[x] == m[x]
    {
      assert b < c ==> End(h.sizes, b) <= c;
      assert c < b ==> End(h.sizes, c) <= b;
    }
  }

  lemma OverheadKeepsOthers(h: Heap, a: nat, m: seq<Cell>, m': seq<Cell>)
    requires Sound(h) && OverheadChanged(h, m, m')
    ensures OthersKept(h, a, m, m')
  {
    forall c: nat, x: nat | IsAllocated(h, c) && c != a && c < x < End(h.sizes, c) && x < |m|
      ensures m'[x] == m[x]
    {
      InteriorNotOverhead(h, c, x);
    }
  }

  lemma OthersKeptTrans(h: Heap, h1: Heap, a: nat, b: nat, m: seq<Cell>, m1: seq<Cell>, m2: seq<Cell>, m3: seq<Cell>)
    requires SameAllocated(h, h1, b) && !IsAllocated(h, b)
    requires OthersKept(h, 0, m, m1) && OthersKept(h1, b, m1, m2) && OthersKept(h1, 0, m2, m3) && Sound(h)
    ensures OthersKept(h, a, m, m3)
  {
    forall c: nat, x: nat | IsAllocated(h, c) && c != a && c < x < End(h.sizes, c) && x < |m|
      ensures m3[x] == m[x]
    {
      assert IsAllocated(h1, c) && h1.sizes[c] == h.sizes[c] && c != b && c != 0;
    }
  }

  lemma PayloadMoved(h: Heap, h1: Heap, a: nat, b: nat, m: seq<Cell>, m1: seq<Cell>, m2: seq<Cell>, m3: seq<Cell>)
    requires IsAllocated(h, a) && IsAllocated(h1, b) && 0 < a && 0 < b && h.sizes[a] <= h1.sizes[b] && End(h.sizes, a) <= |m|
    requires OthersKept(h, 0, m, m1) && Copied(m1, m2, a, b, h.sizes[a]) && OthersKept(h1, 0, m2, m3)
    ensures Moved(m, a, m3, b, h.sizes[a])
  {
    var n := h.sizes[a];
    forall x: nat | b < x < b + n
      ensures m3[x] == m[x - b + a]
    {
      assert m2[x] == m2[b + 1..b + n][x - b - 1];
      assert m1[x - b + a] == m1[a + 1..a + n][x - b - 1];
    }
  }

  /** Allocate, copy, free: what became of every payload. */
  lemma CopyingKeeps(h: Heap, h1: Heap, a: nat, b: nat, m: seq<Cell>, m1: seq<Cell>, m2: seq<Cell>, m3: seq<Cell>)
    requires Sound(h) && IsAllocated(h, a) && Sound(h1) && !IsAllocated(h, b) && IsAllocated(h1, b) && SameAllocated(h, h1, b)
    requires OverheadChanged(h, m, m1) && OverheadChanged(h1, m2, m3) && End(h.sizes, a) <= |m|
    requires Copied(m1, m2, a, b, h.sizes[a]) && OthersKept(h1, b, m1, m2) && h.sizes[a] <= h1.sizes[b]
    ensures OthersKept(h, a, m, m3) && Moved(m, a, m3, b, h.sizes[a])
  {
    assert 0 < a && 0 < b;
    hide Tiled, FreeListed, OverheadChanged, OthersKept, Copied;
    OverheadKeepsOthers(h, 0, m, m1);
    OverheadKeepsOthers(h1, 0, m2, m3);
    OthersKeptTrans(h, h1, a, b, m, m1, m2, m3);
    PayloadMoved(h, h1, a, b, m, m1, m2, m3);
  }

  // ---------------------------------------------------------------------------------------
  // The allocator
  // ---------------------------------------------------------------------------------------

  class Pool {
    const mem: array<Cell>
    var freeList: nat
    ghost var heap: Heap

    ghost predicate Valid()
      reads this, mem
    {
      Sound(heap) && Shows(mem[..], freeList, heap)
    }

    /** yyjson_alc_pool_init on a buffer of so many whole cells. */
    constructor (cells: nat)
      requires cells >= 3
      ensures Valid() && heap == Fresh(cells) && fresh(mem)
    {
      mem := new Cell[cells](_ => Cell(0, 0));
      freeList := 1;
      heap := Fresh(cells);
      new;
      mem[1] := Cell(cells - 1, 0);
      FreshSound(cells);
    }

    /** The first free chunk that is large enough, and the one before it on the list. */
    method FindFirstFit(size: nat) returns (prev: nat, cur: nat, ghost k: nat)
      requires Valid()
      ensures FreeListed(heap.sizes, heap.frees) && k == FirstFit(heap, size, 0) && cur == LinkAt(heap.frees, k)
      ensures prev == if k == 0 then 0 else heap.frees[k - 1]
    {
      assert FreeListed(heap.sizes, heap.frees);
      hide Sound, Shows, Linked, Sized;
      prev, cur, k := 0, freeList, 0;
      SoundDistinct(heap);
      HoldsHead(mem[..], freeList, heap);
      while cur != 0
        invariant k <= |heap.frees| && cur == LinkAt(heap.frees, k) && prev == (if k == 0 then 0 else heap.frees[k - 1])
        invariant FirstFit(heap, size, 0) == FirstFit(heap, size, k)
        decreases |heap.frees| - k
      {
        HoldsAt(mem[..], freeList, heap, k);
        assert mem[..][cur] == mem[cur];
        if mem[cur].size >= size {
          return;
        }
        prev, cur := cur, mem[cur].next;
        k := k + 1;
      }
    }

    /** pool_malloc: the address of the chunk whose payload is returned, 0 for null. */
    method Malloc(size: nat) returns (chunk: nat)
      requires Valid()
      modifies this`freeList, this`heap, mem
      ensures Valid() && heap == Next(old(heap), Op.Malloc(size))
      ensures OverheadChanged(old(heap), old(mem[..]), mem[..])
      ensures chunk == if size >= ArenaBytes(old(heap)) then 0 else (match Malloced(old(heap), Cells(size)).1 case Some(a) => a case None => 0)
      ensures chunk != 0 ==> chunk in heap.sizes && size <= PoolRequests.Payload(heap, chunk) < size + 32
    {
      if Malloced(heap, Cells(size)).1.Some? {
        PoolRequests.MallocServes(heap, size);
      }
      if size >= mem.Length * CELL {
        return 0;
      }
      chunk := MallocCells(Cells(size));
    }

    method MallocCells(size: nat) returns (chunk: nat)
      requires Valid() && 0 < size
      modifies this`freeList, this`heap, mem
      ensures Valid() && heap == Malloced(old(heap), size).0
      ensures OverheadChanged(old(heap), old(mem[..]), mem[..])
      ensures chunk == match Malloced(old(heap), size).1 case Some(a) => a case None => 0
    {
      var prev, cur;
      ghost var k;
      prev, cur, k := FindFirstFit(size);
      hide Sound, Shows, FreeListed, OverheadChanged, Taken, FirstFit;
      if cur == 0 {
        NothingChanged(heap, mem[..]);
        SoundLinks(heap, k);
        return 0;
      }
      TakeFit(prev, cur, size, k);
      return cur;
    }

    /** The chunk found is split, or taken off the list whole. */
    method TakeFit(prev: nat, cur: nat, size: nat, ghost k: nat)
      requires Valid() && 0 < size && k < |heap.frees| && cur == heap.frees[k] && cur in heap.sizes
      requires size <= heap.sizes[cur] && prev == if k == 0 then 0 else heap.frees[k - 1]
      modifies this`freeList, this`heap, mem
      ensures Valid() && heap == Taken(old(heap), k, size)
      ensures OverheadChanged(old(heap), old(mem[..]), mem[..])
    {
      hide Sound, Shows, OverheadChanged, SplitTaken, WholeTaken;
      HoldsAt(mem[..], freeList, heap, k);
      assert mem[..][cur] == mem[cur];
      if mem[cur].size >= size + 2 {
        SplitAt(prev, cur, size, k);
      } else {
        UnlinkAt(prev, cur, k);
      }
    }

    method SetPrevNext(prev: nat, next: nat, ghost k: nat, ghost frees: seq<nat>)
      requires k <= |frees| && prev == (if k == 0 then 0 else frees[k - 1])
      requires k > 0 ==> 0 < prev < mem.Length
      modifies this`freeList, mem
      ensures mem[..] == PrevSet(old(mem[..]), frees, k, next) && freeList == HeadSet(old(freeList), k, next)
    {
      if prev != 0 {
        mem[prev] := mem[prev].(next := next);
      } else {
        freeList := next;
      }
    }

    /** Use the whole chunk. */
    method UnlinkAt(prev: nat, cur: nat, ghost k: nat)
      requires Valid() && k < |heap.frees| && cur == heap.frees[k] && prev == (if k == 0 then 0 else heap.frees[k - 1])
      modifies this`freeList, this`heap, mem
      ensures Valid() && heap == WholeTaken(old(heap), k)
      ensures OverheadChanged(old(heap), old(mem[..]), mem[..])
    {
      hide Sound, Shows, WholeTaken, OverheadChanged, PrevSet, HeadSet;
      SoundDistinct(heap);
      HoldsAt(mem[..], freeList, heap, k);
      if k > 0 {
        HoldsAt(mem[..], freeList, heap, k - 1);
      }
      UnlinkHolds(mem[..], freeList, heap, k);
      assert mem[..][cur] == mem[cur];
      SetPrevNext(prev, mem[cur].next, k, heap.frees);
      heap := WholeTaken(heap, k);
    }

    /** Use the front of the chunk and link its remainder in its place. */
    method SplitAt(prev: nat, cur: nat, size: nat, ghost k: nat)
      requires Valid() && k < |heap.frees| && cur == heap.frees[k] && prev == (if k == 0 then 0 else heap.frees[k - 1])
      requires cur in heap.sizes && 0 < size < heap.sizes[cur]
      modifies this`freeList, this`heap, mem
      ensures Valid() && heap == SplitTaken(old(heap), k, size)
      ensures OverheadChanged(old(heap), old(mem[..]), mem[..])
    {
      hide Sound, Shows, SplitTaken, OverheadChanged, PrevSet, HeadSet;
      SoundDistinct(heap);
      HoldsAt(mem[..], freeList, heap, k);
      if k > 0 {
        HoldsAt(mem[..], freeList, heap, k - 1);
      }
      SplitHolds(mem[..], freeList, heap, k, size);
      var next := cur + size;
      mem[next] := Cell(mem[cur].size - size, mem[cur].next);
      mem[cur] := mem[cur].(size := size);
      assert mem[..] == SplitWrites(old(mem[..]), cur, size);
      SetPrevNext(prev, next, k, heap.frees);
      heap := SplitTaken(heap, k, size);
    }

    /** pool_free: `cur` is the chunk whose payload is given back. */
    method Free(cur: nat)
      requires Valid() && IsAllocated(heap, cur)
      modifies this`freeList, this`heap, mem
      ensures Valid() && heap == Next(old(heap), Op.Free(cur))
      ensures OverheadChanged(old(heap), old(mem[..]), mem[..])
    {
      hide Sound, Shows, Linked, Sized, OverheadChanged, Freed, Merged, MaybeMerged, Sorted, With, Below;
      var prev, next, k := Locate(cur);
      ghost var h0, h1 := heap, heap.(frees := With(heap.frees, k, cur));
      ghost var h2 := MaybeMerged(h1, k);
      PutBackList(h0, k, cur);
      FirstMergeList(h1, k, cur);
      PutBack(prev, cur, next, k);
      ghost var m1 := mem[..];
      MergeAt(cur, next, h1, k);
      MaybeMergeOverhead(m1, h0, h1, k);
      ghost var m2 := mem[..];
      MergeAt(prev, cur, h2, k as int - 1);
      MaybeMergeOverhead(m2, h0, h2, k as int - 1);
      OverheadChangedTrans(h0, old(mem[..]), m1, m2);
      OverheadChangedTrans(h0, old(mem[..]), m2, mem[..]);
      FreedIsTwoMerges(h0, cur);
      FreedSound(h0, cur);
      heap := Freed(h0, cur);
    }

    /** Links a chunk between its free neighbours. */
    method PutBack(prev: nat, cur: nat, next: nat, ghost k: nat)
      requires Valid() && IsAllocated(heap, cur) && k <= |heap.frees|
      requires next == LinkAt(heap.frees, k) && prev == (if k == 0 then 0 else heap.frees[k - 1])
      modifies this`freeList, mem
      ensures Shows(mem[..], freeList, heap.(frees := With(heap.frees, k, cur)))
      ensures OverheadChanged(heap, old(mem[..]), mem[..])
    {
      hide Sound, Shows, OverheadChanged, PrevSet, HeadSet;
      SoundDistinct(heap);
      HeaderOf(mem[..], freeList, heap, cur);
      if k > 0 {
        HoldsAt(mem[..], freeList, heap, k - 1);
      }
      InsertHolds(mem[..], freeList, heap, k, cur);
      SetPrevNext(prev, cur, k, heap.frees);
      assert mem[..][cur].size == old(mem[..])[cur].size by {
        SizeKept(old(mem[..]), heap.frees, k, cur, cur);
      }
      mem[cur] := mem[cur].(next := next);
      assert mem[..] == InsertWrites(old(mem[..]), heap.frees, k, cur);
    }

    /** Merges two neighbours on the list when the second begins where the first ends. */
    method MergeAt(a: nat, b: nat, ghost h: Heap, ghost k: int)
      requires Shows(mem[..], freeList, h) && Sorted(h.sizes, h.frees)
      requires if 0 <= k && k + 1 < |h.frees| then 0 < a == h.frees[k] && 0 < b == h.frees[k + 1] else a == 0 || b == 0
      modifies mem
      ensures Shows(mem[..], freeList, MaybeMerged(h, k)) && old(Sized(mem[..], h.sizes))
      ensures mem[..] == MaybeMergeWrites(old(mem[..]), h, k)
    {
      MaybeMergeHolds(mem[..], freeList, h, k);
      MergeDecision(mem[..], freeList, h, a, b, k);
      hide Shows, MaybeMerged, Sorted, Touches, Sized;
      if a != 0 && b != 0 {
        assert mem[..][a] == mem[a] && mem[..][b] == mem[b];
        if a + mem[a].size == b {
          mem[a] := Cell(mem[a].size + mem[b].size, mem[b].next);
        }
      }
    }

    /** The free chunks around an address: the last one below it and the first one above it. */
    method Locate(cur: nat) returns (prev: nat, next: nat, ghost k: nat)
      requires Valid()
      ensures k == Below(heap.frees, cur, 0) <= |heap.frees|
      ensures next == LinkAt(heap.frees, k) && prev == if k == 0 then 0 else heap.frees[k - 1]
    {
      hide Sound, Shows, Linked, Sized;
      prev, next, k := 0, freeList, 0;
      SoundDistinct(heap);
      HoldsHead(mem[..], freeList, heap);
      while next != 0 && next < cur
        invariant k <= |heap.frees| && next == LinkAt(heap.frees, k) && prev == (if k == 0 then 0 else heap.frees[k - 1])
        invariant Below(heap.frees, cur, 0) == Below(heap.frees, cur, k)
        decreases |heap.frees| - k
      {
        HoldsAt(mem[..], freeList, heap, k);
        assert mem[..][next] == mem[next];
        prev, next := next, mem[next].next;
        k := k + 1;
      }
    }

    /** Grow in place over the free chunk above. */
    method Extend(cur: nat, size: nat, prev: nat, next: nat, ghost k: nat)
      requires Valid() && IsAllocated(heap, cur) && 0 < size && CanGrow(heap, cur, size)
      requires k == Below(heap.frees, cur, 0) && next == heap.frees[k] && prev == (if k == 0 then 0 else heap.frees[k - 1])
      modifies this`freeList, this`heap, mem
      ensures Valid() && heap == Grown(old(heap), cur, size)
      ensures ChangedBehind(old(heap), cur, size, old(mem[..]), mem[..])
    {
      assert CanGrow(heap, cur, 0);
      hide Sound, Shows, OverheadChanged, ChangedBehind, PrevSet, HeadSet, GrownBy, GrownWhole, Below, Join;
      GrownSound(heap, cur, size);
      SoundDistinct(heap);
      HeaderOf(mem[..], freeList, heap, cur);
      HeaderOf(mem[..], freeList, heap, next);
      JoinedSize(heap.sizes, cur);
      var freeSize := mem[cur].size + mem[next].size - size;
      assert mem[..][cur] == mem[cur] && mem[..][next] == mem[next];
      if freeSize > 2 {
        ExtendBy(cur, size, prev, next, k);
      } else {
        ExtendWhole(cur, size, prev, next, k);
      }
    }

    method ExtendBy(cur: nat, size: nat, prev: nat, next: nat, ghost k: nat)
      requires Valid() && IsAllocated(heap, cur) && CanGrow(heap, cur, size) && 0 < size < Join(heap.sizes, cur)[cur]
      requires k == Below(heap.frees, cur, 0) && next == heap.frees[k] && prev == (if k == 0 then 0 else heap.frees[k - 1])
      modifies this`freeList, this`heap, mem
      ensures Valid() && heap == GrownBy(old(heap), cur, size)
      ensures ChangedBehind(old(heap), cur, size, old(mem[..]), mem[..])
    {
      hide Sound, Shows, ChangedBehind, PrevSet, HeadSet, GrownBy, Below, Join;
      GrownBySound(heap, cur, size);
      SoundDistinct(heap);
      GrowByHolds(mem[..], freeList, heap, cur, size);
      ghost var m := mem[..];
      assert mem[cur] == m[cur] && mem[next] == m[next];
      var header := Cell(mem[cur].size + mem[next].size - size, mem[next].next);
      var grown := mem[cur].(size := size);
      SetPrevNext(prev, cur + size, k, heap.frees);
      mem[cur + size] := header;
      mem[cur] := grown;
      assert mem[..] == GrowByWrites(m, heap.frees, k, cur, size);
      heap := GrownBy(heap, cur, size);
    }

    method ExtendWhole(cur: nat, size: nat, prev: nat, next: nat, ghost k: nat)
      requires Valid() && IsAllocated(heap, cur) && CanGrow(heap, cur, 0)
      requires k == Below(heap.frees, cur, 0) && next == heap.frees[k] && prev == (if k == 0 then 0 else heap.frees[k - 1])
      modifies this`freeList, this`heap, mem
      ensures Valid() && heap == GrownWhole(old(heap), cur)
      ensures ChangedBehind(old(heap), cur, size, old(mem[..]), mem[..])
    {
      hide Sound, Shows, ChangedBehind, OverheadChanged, PrevSet, HeadSet, GrownWhole, Below, Join;
      GrownWholeSound(heap, cur);
      SoundDistinct(heap);
      GrowWholeHolds(mem[..], freeList, heap, cur);
      ghost var m := mem[..];
      assert mem[cur] == m[cur] && mem[next] == m[next];
      var grown := mem[cur].(size := mem[cur].size + mem[next].size);
      SetPrevNext(prev, mem[next].next, k, heap.frees);
      mem[cur] := grown;
      assert mem[..] == GrowWholeWrites(m, heap.frees, k, cur);
      OverheadIsBehind(heap, cur, size, m, mem[..]);
      heap := GrownWhole(heap, cur);
    }

    /** memcpy of a chunk's payload: `n` cells less the header. */
    method CopyPayload(from: nat, dest: nat, n: nat)
      requires 1 <= n && from + n <= mem.Length && dest + n <= mem.Length
      modifies mem
      ensures Copied(old(mem[..]), mem[..], from, dest, n)
    {
      forall i | 0 <= i < n - 1 {
        mem[dest + 1 + i] := mem[from + 1 + i];
      }
      assert mem[..][dest + 1..dest + n] == old(mem[..])[from + 1..from + n];
    }

    /** The fallback: allocate, copy the whole old payload, free. */
    method Replace(cur: nat, size: nat) returns (chunk: nat)
      requires Valid() && IsAllocated(heap, cur) && 0 < size
      requires var (h', b) := Malloced(heap, size); b.Some? && b.value in h'.sizes ==> heap.sizes[cur] <= h'.sizes[b.value]
      modifies this`freeList, this`heap, mem
      ensures Valid()
      ensures var (h', b) := Malloced(old(heap), size);
              heap == (if b.Some? then Freed(h', cur) else h') && chunk == match b case Some(a) => a case None => 0
      ensures OthersKept(old(heap), cur, old(mem[..]), mem[..])
      ensures chunk != 0 ==> Moved(old(mem[..]), cur, mem[..], chunk, old(heap.sizes[cur]))
    {
      ghost var h0, m0 := heap, mem[..];
      MallocedSound(h0, size);
      HeaderOf(m0, freeList, h0, cur);
      InArena(h0.cells, h0.sizes, cur);
      chunk := MallocCells(size);
      if chunk != 0 {
        ghost var h1, m1 := heap, mem[..];
        HeaderOf(m1, freeList, h1, cur);
        InArena(h1.cells, h1.sizes, cur);
        InArena(h1.cells, h1.sizes, chunk);
        assert mem[..][cur] == mem[cur];
        CopyPayload(cur, chunk, mem[cur].size);
        ghost var m2 := mem[..];
        CopyHolds(m1, m2, freeList, h1, cur, chunk, h0.sizes[cur]);
        Free(cur);
        CopyingKeeps(h0, h1, cur, chunk, m0, m1, m2, mem[..]);
      } else {
        OverheadKeepsOthers(h0, cur, m0, mem[..]);
      }
    }

    /**
      pool_realloc: grows a chunk of `oldSize` requested bytes to `size`. The result is null (0), the
      chunk itself, or another chunk; its payload begins with the old one, and no other chunk's
      payload changes.
     */
    method Realloc(cur: nat, oldSize: nat, size: nat) returns (chunk: nat)
      requires Valid() && oldSize < size
      requires Allowed(heap, Op.Realloc(cur, oldSize, size)) && Cells(oldSize) <= heap.sizes[cur]
      modifies this`freeList, this`heap, mem
      ensures Valid() && heap == Next(old(heap), Op.Realloc(cur, oldSize, size))
      ensures match PlanFor(old(heap), cur, oldSize, size)
              case Refuse => chunk == 0
              case Copy => chunk == (match Malloced(old(heap), Cells(size)).1 case Some(a) => a case None => 0)
              case _ => chunk == cur
      ensures chunk != 0 ==> IsAllocated(heap, chunk)
      ensures chunk != 0 ==> Moved(old(mem[..]), cur, mem[..], chunk, Cells(oldSize))
      ensures OthersKept(old(heap), cur, old(mem[..]), mem[..])
      ensures chunk != 0 ==> PoolRequests.Holds(heap, chunk, size, old(heap).sizes[cur] <= Cells(oldSize) + 2)
    {
      ghost var h0, m0 := heap, mem[..];
      PoolRequests.ReallocHolds(h0, cur, oldSize, size);
      HeaderOf(m0, freeList, h0, cur);
      InArenaSound(h0, cur);
      CellsMonotone(oldSize, size);
      PlanCases(h0, cur, oldSize, size);
      hide Sound, Shows, Freed, Grown, Malloced, Linked, Sized, CanGrow, PlanFor, Next, OthersKept, Moved;
      if size >= mem.Length * CELL {
        NothingMoved(h0, cur, m0, Cells(oldSize));
        return 0;
      }
      if Cells(oldSize) == Cells(size) {
        NothingMoved(h0, cur, m0, Cells(oldSize));
        return cur;
      }
      StillAllocated(h0, cur, oldSize, size);
      chunk := GrowOrReplace(cur, Cells(oldSize), Cells(size));
    }

    /** Grows a chunk in place if the one above allows it, else moves it. */
    method GrowOrReplace(cur: nat, oldCells: nat, size: nat) returns (chunk: nat)
      requires Valid() && IsAllocated(heap, cur) && 1 <= oldCells <= heap.sizes[cur] && oldCells <= size
      requires !CanGrow(heap, cur, size) ==>
                 var (h', b) := Malloced(heap, size); b.Some? && b.value in h'.sizes ==> heap.sizes[cur] <= h'.sizes[b.value]
      modifies this`freeList, this`heap, mem
      ensures Valid()
      ensures CanGrow(old(heap), cur, size) ==> heap == Grown(old(heap), cur, size) && chunk == cur
      ensures !CanGrow(old(heap), cur, size) ==>
                var (h', b) := Malloced(old(heap), size);
                heap == (if b.Some? then Freed(h', cur) else h') && chunk == match b case Some(a) => a case None => 0
      ensures chunk != 0 ==> Moved(old(mem[..]), cur, mem[..], chunk, oldCells)
      ensures OthersKept(old(heap), cur, old(mem[..]), mem[..])
    {
      hide Sound, Shows, Freed, Grown, Taken, OverheadChanged, ChangedBehind, OthersKept, Moved;
      ghost var h0, m0 := heap, mem[..];
      HeaderOf(m0, freeList, h0, cur);
      InArenaSound(h0, cur);
      var prev, next, k := Locate(cur);
      GrowDecision(m0, freeList, h0, cur, next, k, size);
      assert mem[..][cur] == mem[cur] && (next != 0 ==> mem[..][next] == mem[next]);
      if next != 0 && cur + mem[cur].size == next && mem[cur].size + mem[next].size >= size {
        Extend(cur, size, prev, next, k);
        BehindKeeps(h0, cur, size, oldCells, m0, mem[..]);
        chunk := cur;
      } else {
        chunk := Replace(cur, size);
        if chunk != 0 {
          MovedPrefix(m0, cur, mem[..], chunk, h0.sizes[cur], oldCells);
        }
      }
    }
  }
}
