/**
  The pool allocator of yyjson as a value: which chunks tile the arena and which
  of them are on the free list.

  Addresses and sizes count cells of 16 bytes, the size of a chunk header; cell 0
  is the allocator's own header, so 0 also serves as the null address.
*/
module PoolHeap {
  import opened Bytes

  const CELL: nat := 16

  /** pool_size_align, in cells: the request rounded up, and a cell for the chunk header. */
  function Cells(size: nat): nat {
    (size + CELL - 1) / CELL + 1
  }

  /** Each chunk's address and size. */
  type Chunks = map<nat, nat>

  /** The arena's end, its chunks, and the free ones in list order. */
  datatype Heap = Heap(cells: nat, sizes: Chunks, frees: seq<nat>)

  function End(sizes: Chunks, a: nat): nat
    requires a in sizes
  {
    a + sizes[a]
  }

  /** The chunks tile the arena: each ends where another begins, none reaches into another. */
  predicate Tiled(cells: nat, sizes: Chunks) {
    && 1 in sizes
    && (forall a {:trigger sizes[a]} | a in sizes :: 0 < a && 0 < sizes[a])
    && (forall a {:trigger End(sizes, a)} | a in sizes :: End(sizes, a) == cells || End(sizes, a) in sizes)
    && (forall a, b {:trigger End(sizes, a), b in sizes} | a in sizes && b in sizes && a < b :: End(sizes, a) <= b)
  }

  /** The free list is strictly sorted by address and no two free chunks touch. */
  predicate FreeListed(sizes: Chunks, frees: seq<nat>) {
    && (forall i | 0 <= i < |frees| :: frees[i] in sizes)
    && (forall i, j | 0 <= i < j < |frees| :: End(sizes, frees[i]) < frees[j])
  }

  predicate Sound(h: Heap) {
    Tiled(h.cells, h.sizes) && FreeListed(h.sizes, h.frees)
  }

  predicate IsAllocated(h: Heap, a: nat) {
    a in h.sizes && a !in h.frees
  }

  // ---------------------------------------------------------------------------------------
  // Splitting and joining chunks
  // ---------------------------------------------------------------------------------------

  function Split(sizes: Chunks, a: nat, size: nat): Chunks
    requires a in sizes && size <= sizes[a]
  {
    sizes[a := size][a + size := sizes[a] - size]
  }

  function Join(sizes: Chunks, a: nat): Chunks
    requires a in sizes && End(sizes, a) in sizes
  {
    (sizes - {End(sizes, a)})[a := sizes[a] + sizes[End(sizes, a)]]
  }

  /** The chunks after a split, and where they end. */
  lemma SplitChunk(sizes: Chunks, a: nat, size: nat, b: nat)
    requires a in sizes && 0 < size < sizes[a] && a + size !in sizes
    ensures var s, m := Split(sizes, a, size), a + size;
            && (b in s <==> b in sizes || b == m)
            && (b in s ==> End(s, b) == if b == a then m else if b == m then End(sizes, a) else End(sizes, b))
            && (b in s ==> s[b] == if b == a then size else if b == m then sizes[a] - size else sizes[b])
  {
  }

  lemma SplitInside(cells: nat, sizes: Chunks, a: nat, size: nat)
    requires Tiled(cells, sizes) && a in sizes && 0 < size < sizes[a]
    ensures a + size !in sizes
  {
    assert a + size in sizes ==> End(sizes, a) <= a + size;
  }

  lemma SplitEndsMeet(cells: nat, sizes: Chunks, a: nat, size: nat, b: nat)
    requires Tiled(cells, sizes) && a in sizes && 0 < size < sizes[a] && a + size !in sizes
    requires b in Split(sizes, a, size)
    ensures var s := Split(sizes, a, size); 0 < b && 0 < s[b] && (End(s, b) == cells || End(s, b) in s)
  {
    SplitChunk(sizes, a, size, b);
    SplitChunk(sizes, a, size, if b in sizes then End(sizes, b) else End(sizes, a));
    SplitChunk(sizes, a, size, a + size);
    hide Split;
  }

  lemma SplitOrdered(cells: nat, sizes: Chunks, a: nat, size: nat, b: nat, c: nat)
    requires Tiled(cells, sizes) && a in sizes && 0 < size < sizes[a] && a + size !in sizes
    requires b in Split(sizes, a, size) && c in Split(sizes, a, size) && b < c
    ensures End(Split(sizes, a, size), b) <= c
  {
    SplitChunk(sizes, a, size, b);
    SplitChunk(sizes, a, size, c);
    hide Split;
    if b == a + size {
      assert End(sizes, a) <= c;
    } else if c == a + size && b != a {
      assert b < a;
    }
  }

  lemma SplitTiled(cells: nat, sizes: Chunks, a: nat, size: nat)
    requires Tiled(cells, sizes) && a in sizes && 0 < size < sizes[a]
    ensures Tiled(cells, Split(sizes, a, size)) && a + size !in sizes
  {
    SplitInside(cells, sizes, a, size);
    var s := Split(sizes, a, size);
    assert 1 in s;
    forall b | b in s
      ensures 0 < b && 0 < s[b] && (End(s, b) == cells || End(s, b) in s)
    {
      SplitEndsMeet(cells, sizes, a, size, b);
    }
    forall b, c | b in s && c in s && b < c
      ensures End(s, b) <= c
    {
      SplitOrdered(cells, sizes, a, size, b, c);
    }
    hide Split, End;
  }

  /** The chunks after a join, and where they end. */
  lemma JoinChunk(cells: nat, sizes: Chunks, a: nat, c: nat)
    requires Tiled(cells, sizes) && a in sizes && End(sizes, a) in sizes
    ensures var s, b := Join(sizes, a), End(sizes, a);
            && (c in s <==> c in sizes && c != b)
            && (c in s ==> End(s, c) == (if c == a then End(sizes, b) else End(sizes, c)) && 0 < c && 0 < s[c])
  {
    hide End;
    assert 0 < sizes[a];
    JoinValue(sizes, a, c);
  }

  lemma JoinValue(sizes: Chunks, a: nat, c: nat)
    requires a in sizes && End(sizes, a) in sizes && 0 < sizes[a] && (c in sizes ==> 0 < c && 0 < sizes[c])
    ensures var s, b := Join(sizes, a), End(sizes, a);
            && (c in s <==> c in sizes && c != b)
            && (c in s ==> End(s, c) == (if c == a then End(sizes, b) else End(sizes, c)) && 0 < c && 0 < s[c])
  {
  }

  lemma JoinEndsMeet(cells: nat, sizes: Chunks, a: nat, c: nat)
    requires Tiled(cells, sizes) && a in sizes && End(sizes, a) in sizes && c in Join(sizes, a)
    ensures var s := Join(sizes, a); 0 < c && 0 < s[c] && (End(s, c) == cells || End(s, c) in s)
  {
    JoinChunk(cells, sizes, a, c);
    JoinChunk(cells, sizes, a, End(sizes, if c == a then End(sizes, a) else c));
    EndsDiffer(cells, sizes, a, if c == a then End(sizes, a) else c);
    hide Join;
  }

  lemma JoinOrdered(cells: nat, sizes: Chunks, a: nat, c: nat, d: nat)
    requires Tiled(cells, sizes) && a in sizes && End(sizes, a) in sizes
    requires c in Join(sizes, a) && d in Join(sizes, a) && c < d
    ensures End(Join(sizes, a), c) <= d
  {
    JoinChunk(cells, sizes, a, c);
    JoinChunk(cells, sizes, a, d);
    hide Join;
    if c == a {
      assert End(sizes, a) <= d;
    }
  }

  lemma JoinTiled(cells: nat, sizes: Chunks, a: nat)
    requires Tiled(cells, sizes) && a in sizes && End(sizes, a) in sizes
    ensures Tiled(cells, Join(sizes, a))
  {
    var s := Join(sizes, a);
    JoinChunk(cells, sizes, a, 1);
    assert 1 != End(sizes, a);
    forall c | c in s
      ensures 0 < c && 0 < s[c] && (End(s, c) == cells || End(s, c) in s)
    {
      JoinEndsMeet(cells, sizes, a, c);
    }
    forall c, d | c in s && d in s && c < d
      ensures End(s, c) <= d
    {
      JoinOrdered(cells, sizes, a, c, d);
    }
    hide Join, End;
  }

  function Above(sizes: Chunks, a: nat): set<nat> {
    set b | b in sizes && a < b
  }

  /** Every chunk lies inside the arena. */
  lemma {:induction false} InArena(cells: nat, sizes: Chunks, a: nat)
    requires Tiled(cells, sizes) && a in sizes
    ensures End(sizes, a) <= cells
    decreases |Above(sizes, a)|
  {
    var b := End(sizes, a);
    if b != cells {
      assert b in Above(sizes, a) && b !in Above(sizes, b) && Above(sizes, b) <= Above(sizes, a);
      SmallerSet(Above(sizes, b), Above(sizes, a));
      InArena(cells, sizes, b);
    }
  }

  lemma SmallerSet(s: set<nat>, t: set<nat>)
    requires s < t
    ensures |s| < |t|
  {
    assert t == s + (t - s);
  }

  /** No two chunks end at the same place. */
  lemma EndsDiffer(cells: nat, sizes: Chunks, a: nat, b: nat)
    requires Tiled(cells, sizes) && a in sizes && b in sizes && a != b
    ensures End(sizes, a) != End(sizes, b)
  {
    if a < b {
      assert End(sizes, a) <= b;
    } else {
      assert End(sizes, b) <= a;
    }
  }

  // ---------------------------------------------------------------------------------------
  // Transitions
  // ---------------------------------------------------------------------------------------

  function Without(s: seq<nat>, k: nat): seq<nat>
    requires k < |s|
  {
    s[..k] + s[k + 1..]
  }

  function With(s: seq<nat>, k: nat, a: nat): seq<nat>
    requires k <= |s|
  {
    s[..k] + [a] + s[k..]
  }

  /** The first free chunk, from the `k`th on, of at least `size` cells. */
  function FirstFit(h: Heap, size: nat, k: nat): (r: nat)
    requires k <= |h.frees| && FreeListed(h.sizes, h.frees)
    ensures k <= r <= |h.frees|
    ensures r < |h.frees| ==> size <= h.sizes[h.frees[r]]
    ensures forall i | k <= i < r :: h.sizes[h.frees[i]] < size
    decreases |h.frees| - k
  {
    if k < |h.frees| && h.sizes[h.frees[k]] < size then FirstFit(h, size, k + 1) else k
  }

  /** Takes `size` cells from the `k`th free chunk, splitting it when two cells or more remain. */
  function Taken(h: Heap, k: nat, size: nat): Heap
    requires k < |h.frees| && h.frees[k] in h.sizes && size <= h.sizes[h.frees[k]]
  {
    if h.sizes[h.frees[k]] >= size + 2 then SplitTaken(h, k, size) else WholeTaken(h, k)
  }

  function SplitTaken(h: Heap, k: nat, size: nat): Heap
    requires k < |h.frees| && h.frees[k] in h.sizes && size <= h.sizes[h.frees[k]]
  {
    Heap(h.cells, Split(h.sizes, h.frees[k], size), h.frees[k := h.frees[k] + size])
  }

  function WholeTaken(h: Heap, k: nat): Heap
    requires k < |h.frees|
  {
    h.(frees := Without(h.frees, k))
  }

  /** How many free chunks, counted from the `k`th on, lie below an address. */
  function Below(frees: seq<nat>, a: nat, k: nat): (r: nat)
    requires k <= |frees|
    ensures k <= r <= |frees|
    ensures forall i | k <= i < r :: frees[i] < a
    ensures r < |frees| ==> a <= frees[r]
    decreases |frees| - k
  {
    if k < |frees| && frees[k] < a then Below(frees, a, k + 1) else k
  }

  predicate Touches(sizes: Chunks, frees: seq<nat>, k: nat) {
    k + 1 < |frees| && frees[k] in sizes && End(sizes, frees[k]) == frees[k + 1] && frees[k + 1] in sizes
  }

  /** The `k`th free chunk takes in the next one of the list, which begins where it ends. */
  function Merged(h: Heap, k: nat): Heap
    requires Touches(h.sizes, h.frees, k)
  {
    Heap(h.cells, Join(h.sizes, h.frees[k]), Without(h.frees, k + 1))
  }

  /** Puts a chunk on the list, then merges it with the free chunk above and with the one below. */
  function Freed(h: Heap, a: nat): Heap
  {
    var k := Below(h.frees, a, 0);
    var h1 := h.(frees := With(h.frees, k, a));
    var h2 := if Touches(h1.sizes, h1.frees, k) then Merged(h1, k) else h1;
    if k > 0 && Touches(h2.sizes, h2.frees, k - 1) then Merged(h2, k - 1) else h2
  }

  /** Whether the chunk directly above `a` is free and large enough to grow `a` to `size`. */
  predicate CanGrow(h: Heap, a: nat, size: nat) {
    var k := Below(h.frees, a, 0);
    && a in h.sizes && k < |h.frees| && h.frees[k] in h.sizes
    && End(h.sizes, a) == h.frees[k] && size <= h.sizes[a] + h.sizes[h.frees[k]]
  }

  /** Grows `a` over the free chunk above it and gives back what remains when it exceeds two cells. */
  function Grown(h: Heap, a: nat, size: nat): Heap
    requires CanGrow(h, a, size)
  {
    if Join(h.sizes, a)[a] - size > 2 then GrownBy(h, a, size) else GrownWhole(h, a)
  }

  function GrownBy(h: Heap, a: nat, size: nat): Heap
    requires CanGrow(h, a, size)
  {
    Heap(h.cells, Split(Join(h.sizes, a), a, size), h.frees[Below(h.frees, a, 0) := a + size])
  }

  function GrownWhole(h: Heap, a: nat): Heap
    requires CanGrow(h, a, 0)
  {
    Heap(h.cells, Join(h.sizes, a), Without(h.frees, Below(h.frees, a, 0)))
  }

  // ---------------------------------------------------------------------------------------
  // Preservation
  // ---------------------------------------------------------------------------------------

  /** Apart from `a`, the two heaps have the same allocated chunks of the same sizes. */
  ghost predicate SameAllocated(h: Heap, h': Heap, a: nat) {
    forall b | b != a ::
      (IsAllocated(h', b) <==> IsAllocated(h, b)) && (IsAllocated(h, b) ==> h'.sizes[b] == h.sizes[b])
  }

  lemma WithoutAt(s: seq<nat>, k: nat)
    requires k < |s|
    ensures |Without(s, k)| == |s| - 1
    ensures forall i | 0 <= i < k :: Without(s, k)[i] == s[i]
    ensures forall i | k <= i < |s| - 1 :: Without(s, k)[i] == s[i + 1]
    ensures forall b :: b in s <==> b in Without(s, k) || b == s[k]
  {
    assert s == s[..k] + [s[k]] + s[k + 1..];
  }

  lemma WithAt(s: seq<nat>, k: nat, a: nat)
    requires k <= |s|
    ensures |With(s, k, a)| == |s| + 1 && With(s, k, a)[k] == a
    ensures forall i | 0 <= i < k :: With(s, k, a)[i] == s[i]
    ensures forall i | k < i <= |s| :: With(s, k, a)[i] == s[i - 1]
    ensures forall b :: b in With(s, k, a) <==> b in s || b == a
  {
    assert s == s[..k] + s[k..];
  }

  lemma WithoutFreeListed(sizes: Chunks, frees: seq<nat>, k: nat)
    requires FreeListed(sizes, frees) && k < |frees|
    ensures FreeListed(sizes, Without(frees, k))
    ensures forall b :: b in Without(frees, k) <==> b in frees && b != frees[k]
  {
    WithoutAt(frees, k);
    hide Without;
    assert frees[k] !in Without(frees, k);
  }

  lemma WholeTakenSound(h: Heap, k: nat)
    requires Sound(h) && k < |h.frees|
    ensures var h' := WholeTaken(h, k);
            Sound(h') && IsAllocated(h', h.frees[k]) && SameAllocated(h, h', h.frees[k])
  {
    WithoutFreeListed(h.sizes, h.frees, k);
  }

  /** The upper part of a split chunk takes its place on the free list. */
  lemma SplitFreeListed(sizes: Chunks, frees: seq<nat>, k: nat, size: nat)
    requires FreeListed(sizes, frees) && k < |frees| && 0 < size < sizes[frees[k]] && frees[k] + size !in sizes
    ensures var a := frees[k];
            FreeListed(Split(sizes, a, size), frees[k := a + size])
            && forall b :: b in frees[k := a + size] <==> (b in frees && b != a) || b == a + size
  {
    var a, m := frees[k], frees[k] + size;
    var f, s := frees[k := m], Split(sizes, a, size);
    assert forall i | 0 <= i < |frees| && i != k :: f[i] == frees[i] && frees[i] != a && frees[i] != m;
    assert f[k] == m;
  }

  lemma SplitTakenSound(h: Heap, k: nat, size: nat)
    requires Sound(h) && k < |h.frees| && 0 < size < h.sizes[h.frees[k]]
    ensures var a := h.frees[k];
            var h' := SplitTaken(h, k, size);
            Sound(h') && IsAllocated(h', a) && SameAllocated(h, h', a)
  {
    SplitTiled(h.cells, h.sizes, h.frees[k], size);
    SplitFreeListed(h.sizes, h.frees, k, size);
    hide Tiled, FreeListed;
    var h', a := SplitTaken(h, k, size), h.frees[k];
    assert h.frees[k] in h.frees && h'.frees[k] in h'.frees;
    assert forall b | b != a && b != a + size :: b in h'.sizes <==> b in h.sizes;
  }

  /** Allocation hands out a chunk that was free and leaves all others alone. */
  lemma TakenSound(h: Heap, k: nat, size: nat)
    requires Sound(h) && k < |h.frees| && 0 < size <= h.sizes[h.frees[k]]
    ensures Sound(Taken(h, k, size)) && IsAllocated(Taken(h, k, size), h.frees[k])
    ensures SameAllocated(h, Taken(h, k, size), h.frees[k])
  {
    assert h.frees[k] in h.sizes;
    hide Sound, SplitTaken, WholeTaken, SameAllocated, IsAllocated;
    if h.sizes[h.frees[k]] >= size + 2 {
      SplitTakenSound(h, k, size);
    } else {
      WholeTakenSound(h, k);
    }
  }

  /** The chunk handed out is of the size asked for or one cell more. */
  lemma TakenSize(h: Heap, k: nat, size: nat)
    requires k < |h.frees| && h.frees[k] in h.sizes && 0 < size <= h.sizes[h.frees[k]]
    ensures var h' := Taken(h, k, size);
            h.frees[k] in h'.sizes && size <= h'.sizes[h.frees[k]] <= size + 1
  {
  }

  lemma BelowTotal(sizes: Chunks, frees: seq<nat>, a: nat)
    requires FreeListed(sizes, frees)
    ensures var k := Below(frees, a, 0);
            (forall i | 0 <= i < k :: frees[i] < a) && (forall i | k <= i < |frees| :: a <= frees[i])
  {
    var k := Below(frees, a, 0);
    if k < |frees| {
      forall i | k < i < |frees|
        ensures a <= frees[i]
      {
        assert End(sizes, frees[k]) < frees[i];
      }
    }
  }

  /** The list with one more chunk, sorted but perhaps touching its neighbours. */
  predicate Sorted(sizes: Chunks, frees: seq<nat>) {
    && (forall i | 0 <= i < |frees| :: frees[i] in sizes)
    && (forall i, j | 0 <= i < j < |frees| :: frees[i] < frees[j])
  }

  /** Free chunks are apart, except perhaps those at `i` and `i + 1` for `i` in `but`. */
  predicate Apart(sizes: Chunks, frees: seq<nat>, but: set<int>)
    requires forall i | 0 <= i < |frees| :: frees[i] in sizes
  {
    forall i, j | 0 <= i < j < |frees| && !(j == i + 1 && i in but) :: End(sizes, frees[i]) < frees[j]
  }

  lemma WithSorted(sizes: Chunks, frees: seq<nat>, k: nat, a: nat)
    requires FreeListed(sizes, frees) && a in sizes && k <= |frees|
    requires forall i | 0 <= i < |frees| :: if i < k then frees[i] < a else a < frees[i]
    ensures Sorted(sizes, With(frees, k, a))
  {
    WithAt(frees, k, a);
    hide With;
    assert forall i, j | 0 <= i < j < |frees| :: frees[i] < frees[j];
    hide FreeListed;
  }

  lemma WithApart(sizes: Chunks, frees: seq<nat>, k: nat, a: nat)
    requires FreeListed(sizes, frees) && a in sizes && k <= |frees| && Sorted(sizes, With(frees, k, a))
    requires k > 0 ==> frees[k - 1] < a
    requires k < |frees| ==> End(sizes, a) <= frees[k]
    ensures Apart(sizes, With(frees, k, a), {k - 1, k})
  {
    var f := With(frees, k, a);
    WithAt(frees, k, a);
    hide With;
    forall i, j | 0 <= i < j < |f| && !(j == i + 1 && i in {k - 1, k})
      ensures End(sizes, f[i]) < f[j]
    {
      if i == k {
        assert frees[k] <= End(sizes, frees[k]) < frees[j - 1];
      } else if j == k {
        assert End(sizes, frees[i]) < frees[k - 1];
      }
    }
  }

  /** Putting a chunk on the list in its place keeps it sorted; it may touch its two neighbours. */
  lemma InsertedSorted(cells: nat, sizes: Chunks, frees: seq<nat>, a: nat)
    requires Tiled(cells, sizes) && FreeListed(sizes, frees) && a in sizes && a !in frees
    ensures var k := Below(frees, a, 0);
            var f := With(frees, k, a);
            Sorted(sizes, f) && Apart(sizes, f, {k - 1, k})
  {
    BelowTotal(sizes, frees, a);
    var k := Below(frees, a, 0);
    assert k > 0 ==> End(sizes, frees[k - 1]) <= a;
    assert k < |frees| ==> End(sizes, a) <= frees[k];
    assert forall i | 0 <= i < |frees| :: frees[i] != a;
    hide Tiled, Below, With, FreeListed;
    WithSorted(sizes, frees, k, a);
    WithApart(sizes, frees, k, a);
  }

  /** What a merge at `k` does to the ends of the free chunks. */
  ghost predicate EndsMerged(sizes: Chunks, sizes': Chunks, frees: seq<nat>, k: nat)
    requires forall i | 0 <= i < |frees| :: frees[i] in sizes
  {
    k + 1 < |frees| && forall i | 0 <= i < |frees| && i != k + 1 ::
      frees[i] in sizes' && End(sizes', frees[i]) == End(sizes, frees[if i == k then k + 1 else i])
  }

  lemma MergedListSorted(sizes: Chunks, sizes': Chunks, frees: seq<nat>, k: nat)
    requires Sorted(sizes, frees) && EndsMerged(sizes, sizes', frees, k)
    ensures Sorted(sizes', Without(frees, k + 1))
  {
    WithoutAt(frees, k + 1);
    hide Without;
  }

  lemma MergedListApart(sizes: Chunks, sizes': Chunks, frees: seq<nat>, k: nat, but: set<int>)
    requires Sorted(sizes, frees) && EndsMerged(sizes, sizes', frees, k) && Sorted(sizes', Without(frees, k + 1))
    requires but <= {k - 1, k} && Apart(sizes, frees, but)
    ensures Apart(sizes', Without(frees, k + 1), but - {k as int})
  {
    WithoutAt(frees, k + 1);
    hide Without;
    var f := Without(frees, k + 1);
    forall i, j | 0 <= i < j < |f| && !(j == i + 1 && i in but - {k as int})
      ensures End(sizes', f[i]) < f[j]
    {
      var i' := if i == k then k + 1 else if i < k then i else i + 1;
      var j' := if j <= k then j else j + 1;
      assert End(sizes', f[i]) == End(sizes, frees[i']) && f[j] == frees[j'];
    }
  }

  /** Merging the `k`th free chunk with the next separates it from what follows. */
  lemma MergedApart(h: Heap, k: nat, but: set<int>)
    requires Tiled(h.cells, h.sizes) && Sorted(h.sizes, h.frees) && Touches(h.sizes, h.frees, k)
    requires but <= {k - 1, k} && Apart(h.sizes, h.frees, but)
    ensures var h' := Merged(h, k);
            Tiled(h'.cells, h'.sizes) && Sorted(h'.sizes, h'.frees) && Apart(h'.sizes, h'.frees, but - {k as int})
  {
    JoinTiled(h.cells, h.sizes, h.frees[k]);
    assert EndsMerged(h.sizes, Merged(h, k).sizes, h.frees, k);
    hide Tiled, Sorted, Apart, EndsMerged, Join, Without;
    MergedListSorted(h.sizes, Merged(h, k).sizes, h.frees, k);
    MergedListApart(h.sizes, Merged(h, k).sizes, h.frees, k, but);
  }

  lemma MergedAllocated(h: Heap, k: nat)
    requires Touches(h.sizes, h.frees, k) && Sorted(h.sizes, h.frees)
    ensures SameAllocated(h, Merged(h, k), 0)
  {
    var h' := Merged(h, k);
    WithoutAt(h.frees, k + 1);
    hide Without;
    assert h.frees[k] in h.frees && h.frees[k + 1] in h.frees;
    assert h'.frees[k] == h.frees[k];
  }

  /** Neighbours on the list that do not touch are apart. */
  lemma NotTouchingApart(cells: nat, sizes: Chunks, frees: seq<nat>, k: int, but: set<int>)
    requires Tiled(cells, sizes) && Sorted(sizes, frees) && Apart(sizes, frees, but)
    requires 0 <= k ==> !Touches(sizes, frees, k)
    ensures Apart(sizes, frees, but - {k})
  {
    forall i, j | 0 <= i < j < |frees| && !(j == i + 1 && i in but - {k})
      ensures End(sizes, frees[i]) < frees[j]
    {
      if i == k {
        assert End(sizes, frees[i]) <= frees[j];
      }
    }
  }

  /** One merge attempt: afterwards the chunks at `k` and `k + 1` are apart. */
  function MaybeMerged(h: Heap, k: int): Heap {
    if 0 <= k && Touches(h.sizes, h.frees, k) then Merged(h, k) else h
  }

  lemma MaybeMergedSound(h: Heap, k: int, but: set<int>)
    requires Tiled(h.cells, h.sizes) && Sorted(h.sizes, h.frees)
    requires but <= {k - 1, k} && Apart(h.sizes, h.frees, but)
    ensures var h' := MaybeMerged(h, k);
            && Tiled(h'.cells, h'.sizes) && Sorted(h'.sizes, h'.frees) && Apart(h'.sizes, h'.frees, but - {k})
            && SameAllocated(h, h', 0)
  {
    hide Tiled, Sorted, Apart, SameAllocated, Merged;
    if 0 <= k && Touches(h.sizes, h.frees, k) {
      MergedApart(h, k, but);
      MergedAllocated(h, k);
    } else {
      NotTouchingApart(h.cells, h.sizes, h.frees, k, but);
      SameAllocatedRefl(h);
    }
  }

  lemma SameAllocatedRefl(h: Heap)
    ensures SameAllocated(h, h, 0)
  {
  }

  lemma FreedIsTwoMerges(h: Heap, a: nat)
    ensures var k := Below(h.frees, a, 0);
            Freed(h, a) == MaybeMerged(MaybeMerged(h.(frees := With(h.frees, k, a)), k), k - 1)
  {
  }

  lemma SameAllocatedTrans(h: Heap, h': Heap, h'': Heap)
    requires SameAllocated(h, h', 0) && SameAllocated(h', h'', 0)
    ensures SameAllocated(h, h'', 0)
  {
  }

  lemma FreedSame(h: Heap, h1: Heap, h': Heap, a: nat)
    requires h1.sizes == h.sizes && SameAllocated(h1, h', 0)
    requires forall b :: b in h1.frees <==> b in h.frees || b == a
    ensures forall b | b != 0 :: IsAllocated(h', b) <==> IsAllocated(h, b) && b != a
    ensures forall b | b != 0 && IsAllocated(h', b) :: h'.sizes[b] == h.sizes[b]
  {
    forall b | b != 0
      ensures IsAllocated(h', b) <==> IsAllocated(h, b) && b != a
      ensures IsAllocated(h', b) ==> h'.sizes[b] == h.sizes[b]
    {
      assert IsAllocated(h1, b) <==> IsAllocated(h, b) && b != a;
    }
  }

  /** Freeing makes exactly that chunk's cells free again and keeps the heap sound. */
  lemma FreedSound(h: Heap, a: nat)
    requires Sound(h) && IsAllocated(h, a)
    ensures Sound(Freed(h, a))
    ensures forall b | b != 0 :: IsAllocated(Freed(h, a), b) <==> IsAllocated(h, b) && b != a
    ensures forall b | b != 0 && IsAllocated(Freed(h, a), b) :: Freed(h, a).sizes[b] == h.sizes[b]
  {
    var k: int := Below(h.frees, a, 0);
    var h1 := h.(frees := With(h.frees, k, a));
    FreedIsTwoMerges(h, a);
    InsertedSorted(h.cells, h.sizes, h.frees, a);
    WithAt(h.frees, k, a);
    hide Tiled, With, Below, Freed, MaybeMerged, Sorted, Apart, SameAllocated, FreeListed, IsAllocated;
    var h2 := MaybeMerged(h1, k);
    MaybeMergedSound(h1, k, {k - 1, k});
    MaybeMergedSound(h2, k - 1, {k - 1, k} - {k});
    assert {k - 1, k} - {k} - {k - 1} == {};
    SortedApartListed(MaybeMerged(h2, k - 1));
    SameAllocatedTrans(h1, h2, MaybeMerged(h2, k - 1));
    FreedSame(h, h1, MaybeMerged(h2, k - 1), a);
  }

  lemma SortedApartListed(h: Heap)
    requires Sorted(h.sizes, h.frees) && Apart(h.sizes, h.frees, {})
    ensures FreeListed(h.sizes, h.frees)
  {
  }

  lemma ReplacedListed(sizes: Chunks, sizes': Chunks, frees: seq<nat>, k: nat, m: nat)
    requires FreeListed(sizes, frees) && k < |frees| && m in sizes'
    requires End(sizes', m) == End(sizes, frees[k])
    requires forall i | 0 <= i < k :: End(sizes, frees[i]) < m
    requires forall i | 0 <= i < |frees| && i != k :: frees[i] in sizes' && sizes'[frees[i]] == sizes[frees[i]]
    ensures FreeListed(sizes', frees[k := m])
    ensures forall b :: b in frees[k := m] <==> (b in frees && b != frees[k]) || b == m
  {
    var f := frees[k := m];
    assert f[k] == m;
    assert forall i | 0 <= i < |frees| && i != k :: f[i] == frees[i] && frees[i] != frees[k];
  }

  lemma FrameListed(sizes: Chunks, sizes': Chunks, frees: seq<nat>)
    requires FreeListed(sizes, frees)
    requires forall b | b in frees :: b in sizes' && sizes'[b] == sizes[b]
    ensures FreeListed(sizes', frees)
  {
    assert forall i | 0 <= i < |frees| :: frees[i] in frees;
  }

  lemma GrownWholeSound(h: Heap, a: nat)
    requires Sound(h) && IsAllocated(h, a) && CanGrow(h, a, 0)
    ensures var h' := GrownWhole(h, a);
            Sound(h') && IsAllocated(h', a) && SameAllocated(h, h', a)
  {
    var k := Below(h.frees, a, 0);
    JoinTiled(h.cells, h.sizes, a);
    WithoutFreeListed(h.sizes, h.frees, k);
    hide Tiled, Below, Without, Join;
    assert h.frees[k] in h.frees;
    JoinKeeps(h.sizes, a, a);
    forall b | b in h.sizes && b != h.frees[k]
      ensures b in Join(h.sizes, a) && (b != a ==> Join(h.sizes, a)[b] == h.sizes[b])
    {
      JoinKeeps(h.sizes, a, b);
    }
    FrameListed(h.sizes, Join(h.sizes, a), GrownWhole(h, a).frees);
    forall b | b != a
      ensures IsAllocated(GrownWhole(h, a), b) <==> IsAllocated(h, b)
      ensures IsAllocated(h, b) ==> GrownWhole(h, a).sizes[b] == h.sizes[b]
    {
      JoinKeeps(h.sizes, a, b);
    }
  }

  lemma JoinKeeps(sizes: Chunks, a: nat, b: nat)
    requires a in sizes && End(sizes, a) in sizes && 0 < sizes[a]
    ensures b in Join(sizes, a) <==> b in sizes && b != End(sizes, a)
    ensures b in Join(sizes, a) && b != a ==> Join(sizes, a)[b] == sizes[b]
  {
  }

  lemma GrownByListed(h: Heap, a: nat, size: nat)
    requires Sound(h) && IsAllocated(h, a) && CanGrow(h, a, size) && 0 < size < Join(h.sizes, a)[a]
    ensures FreeListed(GrownBy(h, a, size).sizes, GrownBy(h, a, size).frees)
    ensures forall b :: b in GrownBy(h, a, size).frees <==>
              (b in h.frees && b != h.frees[Below(h.frees, a, 0)]) || b == a + size
  {
    var k, m := Below(h.frees, a, 0), a + size;
    var joined := Join(h.sizes, a);
    JoinTiled(h.cells, h.sizes, a);
    SplitTiled(h.cells, joined, a, size);
    BelowTotal(h.sizes, h.frees, a);
    assert forall i | 0 <= i < k :: End(h.sizes, h.frees[i]) <= a;
    assert m !in joined;
    forall i | 0 <= i < |h.frees| && i != k
      ensures h.frees[i] in joined && joined[h.frees[i]] == h.sizes[h.frees[i]] && h.frees[i] != m && h.frees[i] != a
    {
      assert h.frees[i] in h.frees;
    }
    hide Tiled, Below, Join;
    ReplacedListed(h.sizes, Split(joined, a, size), h.frees, k, m);
    var f := h.frees[k := m];
    assert GrownBy(h, a, size).frees == f;
    forall b ensures b in GrownBy(h, a, size).frees <==> (b in h.frees && b != h.frees[k]) || b == m {
      assert b in f <==> (b in h.frees && b != h.frees[k]) || b == m;
    }
  }

  lemma GrownBySound(h: Heap, a: nat, size: nat)
    requires Sound(h) && IsAllocated(h, a) && CanGrow(h, a, size) && 0 < size < Join(h.sizes, a)[a]
    ensures var h' := GrownBy(h, a, size);
            Sound(h') && IsAllocated(h', a) && SameAllocated(h, h', a)
  {
    var k := Below(h.frees, a, 0);
    var joined := Join(h.sizes, a);
    JoinTiled(h.cells, h.sizes, a);
    SplitTiled(h.cells, joined, a, size);
    GrownByListed(h, a, size);
    assert h.frees[k] in h.frees && a + size in GrownBy(h, a, size).frees;
    assert a + size != h.frees[k] ==> a + size !in h.sizes;
    hide Tiled, FreeListed, Below;
  }

  /** Growing in place keeps the heap sound and the other chunks as they are; at most two cells are slack. */
  lemma GrownSound(h: Heap, a: nat, size: nat)
    requires Sound(h) && IsAllocated(h, a) && 0 < size && CanGrow(h, a, size)
    ensures var h' := Grown(h, a, size);
            Sound(h') && IsAllocated(h', a) && SameAllocated(h, h', a)
    ensures size <= Grown(h, a, size).sizes[a] <= size + 2
  {
    assert CanGrow(h, a, 0);
    hide Sound, IsAllocated, SameAllocated, Below;
    if Join(h.sizes, a)[a] - size > 2 {
      GrownBySound(h, a, size);
    } else {
      GrownWholeSound(h, a);
    }
  }

  // ---------------------------------------------------------------------------------------
  // Runs
  // ---------------------------------------------------------------------------------------

  /** The arena as yyjson_alc_pool_init leaves it: one free chunk. */
  function Fresh(cells: nat): Heap
    requires cells >= 3
  {
    Heap(cells, map[1 := cells - 1], [1])
  }

  lemma FreshSound(cells: nat)
    requires cells >= 3
    ensures Sound(Fresh(cells))
  {
  }

  datatype Op = Malloc(size: nat) | Free(a: nat) | Realloc(a: nat, oldSize: nat, size: nat)

  /** The heap after an allocation of so many cells, and the chunk handed out. */
  function Malloced(h: Heap, size: nat): (r: (Heap, Option<nat>))
    requires FreeListed(h.sizes, h.frees)
  {
    var k := FirstFit(h, size, 0);
    if k == |h.frees| then (h, None) else (Taken(h, k, size), Some(h.frees[k]))
  }

  function ArenaBytes(h: Heap): nat {
    h.cells * CELL
  }

  /** What pool_realloc does with chunk `a`. */
  datatype Plan = Refuse | Keep | Grow | Copy

  function PlanFor(h: Heap, a: nat, oldSize: nat, size: nat): Plan {
    if size >= ArenaBytes(h) then Refuse
    else if Cells(oldSize) == Cells(size) then Keep
    else if CanGrow(h, a, Cells(size)) then Grow
    else Copy
  }

  /** A copy writes the payload of the old chunk, all of it, behind the header of the new one. */
  predicate CopyFits(h: Heap, a: nat, size: nat)
    requires FreeListed(h.sizes, h.frees)
  {
    var (h', b) := Malloced(h, Cells(size));
    b.Some? && a in h.sizes && b.value in h'.sizes ==> h.sizes[a] <= h'.sizes[b.value]
  }

  function Next(h: Heap, op: Op): Heap
    requires Sound(h)
  {
    match op
    case Malloc(size) => if size >= ArenaBytes(h) then h else Malloced(h, Cells(size)).0
    case Free(a) => Freed(h, a)
    case Realloc(a, oldSize, size) =>
      match PlanFor(h, a, oldSize, size)
      case Grow => Grown(h, a, Cells(size))
      case Copy => (var (h', b) := Malloced(h, Cells(size)); if b.Some? then Freed(h', a) else h')
      case _ => h
  }

  /** The caller passes chunks it owns; a reallocation that copies must find the old chunk fits the new. */
  predicate Allowed(h: Heap, op: Op) {
    match op
    case Malloc(_) => true
    case Free(a) => IsAllocated(h, a)
    case Realloc(a, oldSize, size) =>
      IsAllocated(h, a) && FreeListed(h.sizes, h.frees) && (PlanFor(h, a, oldSize, size).Copy? ==> CopyFits(h, a, size))
  }

  lemma MallocedSound(h: Heap, size: nat)
    requires Sound(h) && 0 < size
    ensures var (h', b) := Malloced(h, size);
            && Sound(h')
            && (b.None? ==> h' == h && forall i | 0 <= i < |h.frees| :: h.sizes[h.frees[i]] < size)
            && (b.Some? ==> !IsAllocated(h, b.value) && IsAllocated(h', b.value) && SameAllocated(h, h', b.value)
                            && size <= h'.sizes[b.value] <= size + 1)
  {
    var k := FirstFit(h, size, 0);
    if k < |h.frees| {
      assert h.frees[k] in h.frees;
      TakenSound(h, k, size);
      TakenSize(h, k, size);
      hide Taken, Tiled, SameAllocated;
    }
  }

  /** Main result, one step: every allowed call keeps the tiling and the free list as they must be. */
  lemma StepSound(h: Heap, op: Op)
    requires Sound(h) && Allowed(h, op)
    ensures Sound(Next(h, op))
  {
    match op
    case Malloc(size) => MallocedSound(h, Cells(size));
    case Free(a) => FreedSound(h, a);
    case Realloc(a, oldSize, size) =>
      hide Tiled, Grown, Freed;
      match PlanFor(h, a, oldSize, size)
      case Grow => GrownSound(h, a, Cells(size));
      case Copy =>
        MallocedSound(h, Cells(size));
        var (h', b) := Malloced(h, Cells(size));
        if b.Some? {
          FreedSound(h', a);
        }
      case _ =>
  }

  function Exec(h: Heap, ops: seq<Op>): Heap
    requires Sound(h) && AllAllowed(h, ops)
    decreases |ops|
  {
    if ops == [] then h else (StepSound(h, ops[0]); Exec(Next(h, ops[0]), ops[1..]))
  }

  predicate AllAllowed(h: Heap, ops: seq<Op>)
    requires Sound(h)
    decreases |ops|
  {
    ops == [] || (Allowed(h, ops[0]) && (StepSound(h, ops[0]); AllAllowed(Next(h, ops[0]), ops[1..])))
  }

  /** Main result, whole runs: chunks tile the arena and the free list is sorted and coalesced throughout. */
  lemma {:induction false} RunSound(h: Heap, ops: seq<Op>)
    requires Sound(h) && AllAllowed(h, ops)
    ensures Sound(Exec(h, ops))
    decreases |ops|
  {
    if ops != [] {
      StepSound(h, ops[0]);
      RunSound(Next(h, ops[0]), ops[1..]);
    }
  }

  /** Whether a call is about chunk `b`. */
  predicate Concerns(op: Op, b: nat) {
    match op
    case Malloc(_) => false
    case Free(a) => a == b
    case Realloc(a, _, _) => a == b
  }

  lemma StepSparesOthers(h: Heap, op: Op, b: nat)
    requires Sound(h) && Allowed(h, op) && IsAllocated(h, b) && !Concerns(op, b)
    ensures IsAllocated(Next(h, op), b) && Next(h, op).sizes[b] == h.sizes[b]
  {
    assert b != 0;
    match op
    case Malloc(size) => MallocedSound(h, Cells(size));
    case Free(a) => FreedSound(h, a);
    case Realloc(a, oldSize, size) =>
      hide Tiled, Grown, Freed;
      match PlanFor(h, a, oldSize, size)
      case Grow => GrownSound(h, a, Cells(size));
      case Copy =>
        MallocedSound(h, Cells(size));
        var (h', c) := Malloced(h, Cells(size));
        if c.Some? {
          FreedSound(h', a);
        }
      case _ =>
  }

  /** Main result, ownership: a chunk stays allocated, in place and of the same size, until a call concerns it. */
  lemma {:induction false} RunSparesOthers(h: Heap, ops: seq<Op>, b: nat)
    requires Sound(h) && AllAllowed(h, ops) && IsAllocated(h, b)
    requires forall i | 0 <= i < |ops| :: !Concerns(ops[i], b)
    ensures IsAllocated(Exec(h, ops), b) && Exec(h, ops).sizes[b] == h.sizes[b]
    decreases |ops|
  {
    if ops != [] {
      StepSound(h, ops[0]);
      StepSparesOthers(h, ops[0], b);
      RunSparesOthers(Next(h, ops[0]), ops[1..], b);
    }
  }

  lemma {:induction false} BelowIs(frees: seq<nat>, a: nat, k: nat, j: nat)
    requires j <= k <= |frees|
    requires forall i | j <= i < k :: frees[i] < a
    requires k < |frees| ==> a <= frees[k]
    ensures Below(frees, a, j) == k
    decreases k - j
  {
    if j < k {
      BelowIs(frees, a, k, j + 1);
    }
  }

  lemma FreeUndoesWhole(h: Heap, k: nat)
    requires Sound(h) && k < |h.frees|
    ensures Freed(WholeTaken(h, k), h.frees[k]) == h
  {
    var a, h' := h.frees[k], WholeTaken(h, k);
    WithoutAt(h.frees, k);
    assert With(h'.frees, k, a) == h.frees;
    assert forall i | 0 <= i < k :: h'.frees[i] < a;
    BelowIs(h'.frees, a, k, 0);
    hide Tiled, Below, With, Without;
  }

  /** The list with chunk `a` put back in front of the remainder that was split off it. */
  lemma SplitPutBack(frees: seq<nat>, k: nat, m: nat)
    requires k < |frees|
    ensures var f := With(frees[k := m], k, frees[k]);
            |f| == |frees| + 1 && f[k] == frees[k] && f[k + 1] == m && Without(f, k + 1) == frees
            && (forall i | 0 <= i < k :: f[i] == frees[i])
  {
    var f := With(frees[k := m], k, frees[k]);
    assert f == frees[..k] + [frees[k], m] + frees[k + 1..];
  }

  lemma JoinUndoesSplit(sizes: Chunks, a: nat, size: nat)
    requires a in sizes && 0 < size < sizes[a] && a + size !in sizes
    ensures var s := Split(sizes, a, size);
            End(s, a) == a + size && a + size in s && Join(s, a) == sizes
  {
    assert Join(Split(sizes, a, size), a) == sizes;
  }

  lemma FreeUndoesSplit(h: Heap, k: nat, size: nat)
    requires Sound(h) && k < |h.frees| && 0 < size < h.sizes[h.frees[k]]
    ensures Freed(SplitTaken(h, k, size), h.frees[k]) == h
  {
    var a, h' := h.frees[k], SplitTaken(h, k, size);
    SplitTiled(h.cells, h.sizes, a, size);
    JoinUndoesSplit(h.sizes, a, size);
    SplitPutBack(h.frees, k, a + size);
    assert forall i | 0 <= i < k :: h'.frees[i] < a;
    BelowIs(h'.frees, a, k, 0);
    assert k > 0 ==> !Touches(h.sizes, h.frees, k - 1);
    hide Tiled, FreeListed, Below, With, Without, Join, Split;
    var h1 := h'.(frees := With(h'.frees, k, a));
    assert Touches(h1.sizes, h1.frees, k);
    assert Merged(h1, k) == h;
  }

  /** Freeing what was just allocated restores the heap, whether or not a chunk was split. */
  lemma FreeUndoesMalloc(h: Heap, size: nat)
    requires Sound(h) && 0 < size && Malloced(h, size).1.Some?
    ensures var (h', b) := Malloced(h, size); Freed(h', b.value) == h
  {
    var k := FirstFit(h, size, 0);
    if h.sizes[h.frees[k]] >= size + 2 {
      FreeUndoesSplit(h, k, size);
    } else {
      FreeUndoesWhole(h, k);
    }
  }

  // ---------------------------------------------------------------------------------------
  // When a copying reallocation stays inside its new chunk
  // ---------------------------------------------------------------------------------------

  /** How large a chunk an allocation of `n` cells gives when its first fit has `fit` cells. */
  function GivenSize(fit: nat, n: nat): nat {
    if fit == n + 1 then n + 1 else n
  }

  /** A copy stays inside its new chunk exactly when there is none, or the old chunk is no larger than it. */
  lemma CopyFitsExactly(h: Heap, a: nat, size: nat)
    requires Sound(h) && IsAllocated(h, a)
    ensures var n := Cells(size);
            var k := FirstFit(h, n, 0);
            CopyFits(h, a, size) <==> k == |h.frees| || h.sizes[a] <= GivenSize(h.sizes[h.frees[k]], n)
  {
    var n := Cells(size);
    var k := FirstFit(h, n, 0);
    if k < |h.frees| {
      assert h.frees[k] in h.frees;
      TakenSize(h, k, n);
    }
  }

  /** A chunk with at most a cell of slack, as allocation leaves it, always fits a larger request's chunk. */
  lemma SmallSlackFits(h: Heap, a: nat, oldSize: nat, size: nat)
    requires Sound(h) && IsAllocated(h, a) && Cells(oldSize) < Cells(size)
    requires h.sizes[a] <= Cells(oldSize) + 1
    ensures CopyFits(h, a, size)
  {
    MallocedSound(h, Cells(size));
  }

  /** The copy is bounded by the old chunk, not by the request: it fits when the old chunk is no larger. */
  lemma NoLargerFits(h: Heap, a: nat, size: nat)
    requires Sound(h) && IsAllocated(h, a) && h.sizes[a] <= Cells(size)
    ensures CopyFits(h, a, size)
  {
    MallocedSound(h, Cells(size));
  }

  // A run that leaves two cells of slack.

  const H1 := Heap(64, map[1 := 2, 3 := 61], [3])
  const H2 := Heap(64, map[1 := 2, 3 := 3, 6 := 58], [6])
  const H3 := Heap(64, map[1 := 2, 3 := 3, 6 := 2, 8 := 56], [8])
  const H4 := Heap(64, map[1 := 2, 3 := 3, 6 := 2, 8 := 56], [3, 8])
  const H5 := Heap(64, map[1 := 5, 6 := 2, 8 := 56], [8])

  /** One allowed call of a run. */
  predicate Step(h: Heap, op: Op, h': Heap) {
    Sound(h) && Allowed(h, op) && Next(h, op) == h'
  }

  lemma ExampleMalloc1()
    ensures Step(Fresh(64), Malloc(16), H1)
  {
    FreshSound(64);
    assert Split(map[1 := 63], 1, 2) == H1.sizes && [1][0 := 3] == [3];
  }

  lemma ExampleMalloc2()
    ensures Step(H1, Malloc(32), H2)
  {
    assert Split(H1.sizes, 3, 3) == H2.sizes && [3][0 := 6] == [6];
  }

  lemma ExampleMalloc3()
    ensures Step(H2, Malloc(16), H3)
  {
    assert Split(H2.sizes, 6, 2) == H3.sizes && [6][0 := 8] == [8];
  }

  lemma ExampleFree()
    ensures Step(H3, Free(3), H4)
  {
    assert With([8], 0, 3) == [3, 8];
    assert Below([8], 3, 0) == 0;
  }

  lemma ExampleGrow()
    ensures Step(H4, Realloc(1, 16, 32), H5)
  {
    assert Sound(H4) && IsAllocated(H4, 1);
    hide Tiled, FreeListed;
    assert Below([3, 8], 1, 0) == 0;
    assert Join(H4.sizes, 1) == H5.sizes;
    assert Without([3, 8], 0) == [8];
    assert CanGrow(H4, 1, Cells(32));
  }

  lemma ExampleCopy()
    ensures Sound(H5) && IsAllocated(H5, 1) && PlanFor(H5, 1, 32, 48) == Copy && !CopyFits(H5, 1, 48)
  {
    assert Below([8], 1, 0) == 0;
    assert FirstFit(H5, 4, 0) == 0;
    assert Split(H5.sizes, 8, 4)[8] == 4;
  }

  /**
    It need not fit: a chunk that grew in place over a free chunk two cells larger than needed keeps
    the slack, and growing it by one more cell copies one cell too many. The run begins with a fresh
    arena, and every call before the last is allowed.
   */
  lemma GrownChunkMayNotFit()
    ensures Step(Fresh(64), Malloc(16), H1) && Step(H1, Malloc(32), H2) && Step(H2, Malloc(16), H3)
    ensures Step(H3, Free(3), H4) && Step(H4, Realloc(1, 16, 32), H5)
    ensures IsAllocated(H5, 1) && PlanFor(H5, 1, 32, 48) == Copy
    ensures FreeListed(H5.sizes, H5.frees) && !CopyFits(H5, 1, 48)
  {
    hide Step, IsAllocated, PlanFor, CopyFits;
    ExampleMalloc1();
    ExampleMalloc2();
    ExampleMalloc3();
    ExampleFree();
    ExampleGrow();
    ExampleCopy();
  }
}
