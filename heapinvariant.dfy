// MyHeapAlloc with the zeroing its comment promises (CarveZeroed), on a
// well-formed heap: it never finds the heap corrupt, it keeps the heap well
// formed, and the block it hands out is the first on the free list that
// fits, sized and cleared after its header and no longer on the list.

module HeapInvariant {
  import opened HeapWords
  import opened FreeList
  import opened Collector
  import opened HeapShape
  import opened JavaHeap

  /** Word x starts a block of a cutting of t that is not on t's free list. */
  ghost predicate InUse(t: HeapState, x: int) {
    exists B, L :: Shape(t, B, L) && IsBlock(B, x) && x !in L
  }

  /**
   * The block whose header is word x, as MyHeapAlloc promises it for a
   * request of `size` bytes (the pointer handed out is 4 * x + 4): the
   * header holds the block size, a multiple of 4 and at least the needed
   * size; the block lies in the arena, every word after its header reads
   * 0, and it is in use.
   */
  ghost predicate HandedOut(t: HeapState, size: int, x: int) {
    0 <= x < |t.w| &&
    t.w[x] % 4 == 0 && NeededSize(size) <= t.w[x] && 4 * x + t.w[x] <= 4 * |t.w| &&
    (forall q :: x < q && 4 * q < 4 * x + t.w[x] ==> t.w[q] == 0) &&
    InUse(t, x)
  }

  /** Listed block k is the first on the list L whose header covers `need`. */
  predicate FirstFitOn(w: seq<int>, L: seq<int>, need: int, k: int) {
    0 <= k < |L| && need <= At(w, L[k]) && TooSmall(w, L, 0, k, need)
  }

  /** The arena InitMyAlloc sets up is well formed: one block spanning it, which is the whole free list. */
  lemma InitialWellFormed(heapSize: int)
    requires MINBLOCKSIZE <= heapSize <= 0x7FFF_FFFF
    ensures var s := InitialState(heapSize); Shape(s, [0, |s.w|], [0]) && WellFormed(s)
  {
    var s := InitialState(heapSize);
    Int32RoundTrip(-1);
    SingleBlockShape(s);
  }

  /** The counters are no part of the shape. */
  lemma ShapeIgnoresStats(s: HeapState, B: seq<int>, L: seq<int>, st: Stats)
    requires Shape(s, B, L)
    ensures Shape(s.(stats := st), B, L)
  {
  }

  /** Some listed block covers `need`. */
  predicate SomeFit(w: seq<int>, L: seq<int>, need: int) {
    exists k :: 0 <= k < |L| && need <= At(w, L[k])
  }

  /**
   * The search of MyHeapAlloc on a well-formed heap, with the fuel it is
   * given, never stops on a fault: it hits the first listed block that
   * covers the need, or misses when none does.
   */
  lemma SearchOnShape(s: HeapState, B: seq<int>, L: seq<int>, need: int)
    requires Shape(s, B, L)
    ensures var r := Search(s.w, s.first, -1, need, |s.w| + 1).result;
            (r.Hit? || r.Miss?) &&
            (r.Miss? <==> !SomeFit(s.w, L, need)) &&
            (r.Hit? ==> exists k :: FirstFitOn(s.w, L, need, k) && HitIs(s.w, L, k, r))
  {
    ListShort(s, B, L);
    ShapeSearchable(s, B, L);
    SearchOnList(s.w, L, 0, need, |s.w| + 1);
    var r := Search(s.w, s.first, -1, need, |s.w| + 1).result;
    if r.Hit? {
      var k :| 0 <= k && HitIs(s.w, L, k, r) && TooSmall(s.w, L, 0, k, need);
      assert FirstFitOn(s.w, L, need, k);
    } else {
      NoneFits(s.w, L, need);
    }
  }

  /** When every listed block is too small, none fits. */
  lemma NoneFits(w: seq<int>, L: seq<int>, need: int)
    requires TooSmall(w, L, 0, |L|, need)
    ensures !SomeFit(w, L, need)
  {
    forall k | 0 <= k < |L|
      ensures At(w, L[k]) < need
    {
    }
  }

  /** A block [x, e) of a well-formed heap, off its list and cleared after a header that covers the need, is handed out. */
  lemma HandedOutIntro(t: HeapState, B: seq<int>, L: seq<int>, size: int, x: int, e: int)
    requires Shape(t, B, L) && IsBlock(B, x) && x !in L && 0 <= x < e <= |t.w|
    requires t.w[x] == 4 * (e - x) && NeededSize(size) <= t.w[x]
    requires forall q :: x < q < e ==> t.w[q] == 0
    ensures WellFormed(t) && HandedOut(t, size, x)
  {
  }

  /**
   * Carving listed block k, the search's hit, for a request of `size`
   * bytes: the heap stays well formed and the block is handed out.
   */
  lemma CarveOnShape(s: HeapState, B: seq<int>, L: seq<int>, k: int, size: int)
    requires Shape(s, B, L) && 0 <= k < |L| && MINBLOCKSIZE <= size && NeededSize(size) <= At(s.w, L[k])
    ensures var t := CarveZeroed(s, 4 * L[k], if k == 0 then -1 else 4 * L[k - 1], At(s.w, L[k]), NeededSize(size));
            WellFormed(t) && HandedOut(t, size, L[k])
  {
    var need := NeededSize(size);
    var i := IndexOf(B, L[k]);
    BlockIndex(B, |s.w|, L[k]);
    if At(s.w, L[k]) - need >= MINBLOCKSIZE {
      var y := L[k] + need / 4;
      assert need == 4 * (y - L[k]);
      CarveSplitHanded(s, B, L, k, i, size, need, y);
    } else {
      CarveUnlinkHanded(s, B, L, k, i, size, need);
    }
  }

  /** The split case of CarveOnShape: the handed-out block ends at word y. */
  lemma CarveSplitHanded(s: HeapState, B: seq<int>, L: seq<int>, k: int, i: int, size: int, need: int, y: int)
    requires Shape(s, B, L) && 0 <= k < |L| && 0 <= i < |B| - 1 && B[i] == L[k] && MINBLOCKSIZE <= size
    requires need == NeededSize(size) && need == 4 * (y - L[k]) && At(s.w, L[k]) - need >= MINBLOCKSIZE
    ensures var t := CarveZeroed(s, 4 * L[k], if k == 0 then -1 else 4 * L[k - 1], At(s.w, L[k]), need);
            WellFormed(t) && HandedOut(t, size, L[k])
  {
    var pw := if k == 0 then -1 else 4 * L[k - 1];
    var t := CarveZeroed(s, 4 * L[k], pw, At(s.w, L[k]), need);
    CarveSplitShape(s, B, L, k, i, need, y, pw, At(s.w, L[k]));
    HandedOutIntro(t, Insert(B, i + 1, y), L[k := y], size, L[k], y);
  }

  /** The unlink case of CarveOnShape: the whole block is handed out. */
  lemma CarveUnlinkHanded(s: HeapState, B: seq<int>, L: seq<int>, k: int, i: int, size: int, need: int)
    requires Shape(s, B, L) && 0 <= k < |L| && 0 <= i < |B| - 1 && B[i] == L[k] && MINBLOCKSIZE <= size
    requires need == NeededSize(size) && 0 <= At(s.w, L[k]) - need < MINBLOCKSIZE
    ensures var t := CarveZeroed(s, 4 * L[k], if k == 0 then -1 else 4 * L[k - 1], At(s.w, L[k]), need);
            WellFormed(t) && HandedOut(t, size, L[k])
  {
    var pw := if k == 0 then -1 else 4 * L[k - 1];
    var bs := At(s.w, L[k]);
    HeaderOf(s, B, L, L[k]);
    IndexUnique(B, |s.w|, IndexOf(B, L[k]), i);
    var e := B[i + 1];
    assert bs == 4 * (e - L[k]) && bs / 4 == e - L[k];
    CarveUnlinkShape(s, B, L, k, i, need, pw, bs);
    var t := CarveZeroed(s, 4 * L[k], pw, bs, need);
    HandedOutIntro(t, B, Remove(L, k), size, L[k], e);
  }

  /**
   * One search and what follows it when no collection is due (gcDone, or a
   * hit): the request on a well-formed heap either takes the first listed
   * block that fits or, with no block fitting, is reported exhausted.
   */
  lemma NoGcOnShape(s: HeapState, B: seq<int>, L: seq<int>, size: int, objects: seq<int>, stack: seq<int>, gcDone: bool)
    requires Shape(s, B, L) && Roots(|s.w|, objects) && MINBLOCKSIZE <= size <= MAXBLOCKSIZE
    requires gcDone || SomeFit(s.w, L, NeededSize(size))
    ensures var a := AllocSpec(s, size, objects, stack, gcDone);
            var need := NeededSize(size);
            WellFormed(a.state) && a.state.stats.gcs == s.stats.gcs &&
            (SomeFit(s.w, L, need) ==>
               exists k :: FirstFitOn(s.w, L, need, k) && a.result == Allocated(4 * L[k] + 4) && HandedOut(a.state, size, L[k])) &&
            (!SomeFit(s.w, L, need) ==> a.result == AllocFailed(Exhausted) && a.state.w == s.w && a.state.first == s.first)
  {
    var need := NeededSize(size);
    var found := Search(s.w, s.first, -1, need, |s.w| + 1);
    SearchOnShape(s, B, L, need);
    if found.result.Hit? {
      var s1 := s.(stats := s.stats.(searches := s.stats.searches + found.probes));
      var k := ShapeHit(s, s1, B, L, size);
      HitCase(s, s1, L, k, size, objects, stack, gcDone);
      HandedOutWellFormed(AllocSpec(s, size, objects, stack, gcDone).state, size, L[k]);
    } else {
      MissCase(s, B, L, size, objects, stack);
    }
  }

  /** A heap with a block handed out is well formed. */
  lemma HandedOutWellFormed(t: HeapState, size: int, x: int)
    requires HandedOut(t, size, x)
    ensures WellFormed(t)
  {
  }

  /**
   * The hit on a well-formed heap, before the request is looked at: the
   * search stops at listed block k, the first that fits, and carving it
   * from s1, the heap with the probes counted, hands it out.
   */
  lemma ShapeHit(s: HeapState, s1: HeapState, B: seq<int>, L: seq<int>, size: int) returns (k: int)
    requires Shape(s, B, L) && MINBLOCKSIZE <= size
    requires Search(s.w, s.first, -1, NeededSize(size), |s.w| + 1).result.Hit?
    requires s1.w == s.w && s1.first == s.first && s1.stats.gcs == s.stats.gcs
    ensures FirstFitOn(s.w, L, NeededSize(size), k)
    ensures HitIs(s.w, L, k, Search(s.w, s.first, -1, NeededSize(size), |s.w| + 1).result)
    ensures var t := CarveZeroed(s1, 4 * L[k], if k == 0 then -1 else 4 * L[k - 1], At(s1.w, L[k]), NeededSize(size));
            HandedOut(t, size, L[k]) && t.stats.gcs == s.stats.gcs
  {
    var need := NeededSize(size);
    SearchOnShape(s, B, L, need);
    k :| FirstFitOn(s.w, L, need, k) && HitIs(s.w, L, k, Search(s.w, s.first, -1, need, |s.w| + 1).result);
    CarveStep(s, s1, B, L, k, size);
  }

  /** The hit case of NoGcOnShape, past the shape: listed block k, carved as ShapeHit describes, is what the request returns. */
  lemma HitCase(s: HeapState, s1: HeapState, L: seq<int>, k: int, size: int, objects: seq<int>, stack: seq<int>, gcDone: bool)
    requires WordsOk(s) && Roots(|s.w|, objects) && MINBLOCKSIZE <= size <= MAXBLOCKSIZE
    requires HitIs(s.w, L, k, Search(s.w, s.first, -1, NeededSize(size), |s.w| + 1).result)
    requires s1 == s.(stats := s.stats.(searches := s.stats.searches + Search(s.w, s.first, -1, NeededSize(size), |s.w| + 1).probes))
    requires var t := CarveZeroed(s1, 4 * L[k], if k == 0 then -1 else 4 * L[k - 1], At(s1.w, L[k]), NeededSize(size));
             HandedOut(t, size, L[k]) && t.stats.gcs == s.stats.gcs
    ensures var a := AllocSpec(s, size, objects, stack, gcDone);
            a.result == Allocated(4 * L[k] + 4) && HandedOut(a.state, size, L[k]) && a.state.stats.gcs == s.stats.gcs
  {
    AllocSearches(s, s1, size, objects, stack, gcDone);
    AfterHit(s1, size, NeededSize(size), 4 * L[k], if k == 0 then -1 else 4 * L[k - 1], At(s1.w, L[k]), objects, stack, gcDone);
  }

  /** CarveOnShape on a heap that differs from a well-formed one only in its search counters. */
  lemma CarveStep(s: HeapState, s1: HeapState, B: seq<int>, L: seq<int>, k: int, size: int)
    requires Shape(s, B, L) && MINBLOCKSIZE <= size
    requires FirstFitOn(s.w, L, NeededSize(size), k)
    requires s1.w == s.w && s1.first == s.first && s1.stats.gcs == s.stats.gcs
    ensures var t := CarveZeroed(s1, 4 * L[k], if k == 0 then -1 else 4 * L[k - 1], At(s1.w, L[k]), NeededSize(size));
            HandedOut(t, size, L[k]) && t.stats.gcs == s.stats.gcs
  {
    ShapeIgnoresStats(s, B, L, s1.stats);
    assert s1 == s.(stats := s1.stats);
    CarveOnShape(s1, B, L, k, size);
  }

  /** The miss case of NoGcOnShape, after a collection: the request is exhausted and only the counters change. */
  lemma MissCase(s: HeapState, B: seq<int>, L: seq<int>, size: int, objects: seq<int>, stack: seq<int>)
    requires Shape(s, B, L) && Roots(|s.w|, objects) && MINBLOCKSIZE <= size <= MAXBLOCKSIZE
    requires Search(s.w, s.first, -1, NeededSize(size), |s.w| + 1).result == Miss
    ensures var a := AllocSpec(s, size, objects, stack, true);
            a.result == AllocFailed(Exhausted) && a.state.w == s.w && a.state.first == s.first &&
            WellFormed(a.state) && a.state.stats.gcs == s.stats.gcs
  {
    var found := Search(s.w, s.first, -1, NeededSize(size), |s.w| + 1);
    var s1 := s.(stats := s.stats.(searches := s.stats.searches + found.probes));
    AllocSearches(s, s1, size, objects, stack, true);
    ShapeIgnoresStats(s, B, L, s1.stats);
  }

  /** A request of a valid size is the search followed by what is done with its outcome on the heap s1 with the probes counted. */
  lemma AllocSearches(s: HeapState, s1: HeapState, size: int, objects: seq<int>, stack: seq<int>, gcDone: bool)
    requires WordsOk(s) && Roots(|s.w|, objects) && MINBLOCKSIZE <= size <= MAXBLOCKSIZE
    requires s1 == s.(stats := s.stats.(searches := s.stats.searches + Search(s.w, s.first, -1, NeededSize(size), |s.w| + 1).probes))
    ensures AllocSpec(s, size, objects, stack, gcDone) ==
            AfterSearch(s1, size, NeededSize(size), Search(s.w, s.first, -1, NeededSize(size), |s.w| + 1).result,
                        objects, stack, gcDone)
  {
  }

  /** What follows a hit: the hit is carved and the pointer after its header returned. */
  lemma AfterHit(s1: HeapState, size: int, need: int, at: int, prev: int, bs: int,
                 objects: seq<int>, stack: seq<int>, gcDone: bool)
    requires WordsOk(s1) && Roots(|s1.w|, objects)
    ensures AfterSearch(s1, size, need, Hit(at, prev, bs), objects, stack, gcDone) ==
            Allocation(Allocated(at + 4), CarveZeroed(s1, at, prev, bs, need))
  {
  }

  /** A miss before any collection is the retry, on the heap with the probes counted. */
  lemma MissRetries(s: HeapState, s1: HeapState, size: int, objects: seq<int>, stack: seq<int>)
    requires WordsOk(s) && Roots(|s.w|, objects) && MINBLOCKSIZE <= size <= MAXBLOCKSIZE
    requires Search(s.w, s.first, -1, NeededSize(size), |s.w| + 1).result == Miss
    requires s1 == s.(stats := s.stats.(searches := s.stats.searches + Search(s.w, s.first, -1, NeededSize(size), |s.w| + 1).probes))
    ensures AllocSpec(s, size, objects, stack, false) == RetrySpec(s1, size, objects, stack)
  {
    AllocSearches(s, s1, size, objects, stack, false);
  }

  /**
   * The retry on a well-formed heap: the collection keeps the heap well
   * formed and is counted once, and the request after it either takes a
   * block, handed out, or is exhausted.
   */
  lemma RetryCase(s1: HeapState, B: seq<int>, L: seq<int>, size: int, objects: seq<int>, stack: seq<int>)
    requires Shape(s1, B, L) && Roots(|s1.w|, objects) && MINBLOCKSIZE <= size <= MAXBLOCKSIZE
    ensures var a := RetrySpec(s1, size, objects, stack);
            WellFormed(a.state) && a.state.stats.gcs == s1.stats.gcs + 1 &&
            (a.result.Allocated? || a.result == AllocFailed(Exhausted)) &&
            (a.result.Allocated? ==> exists x :: a.result.p == 4 * x + 4 && HandedOut(a.state, size, x))
  {
    GcKeepsShape(s1, B, L, objects, stack);
    var g := GcSpec(s1, objects, stack);
    var B2, L2 :| Shape(g.state, B2, L2);
    assert RetrySpec(s1, size, objects, stack) == AllocSpec(g.state, size, objects, stack, true);
    NoGcOnShape(g.state, B2, L2, size, objects, stack, true);
  }

  /**
   * MyHeapAlloc on a well-formed heap, with roots the collector may mark:
   * the heap it leaves is well formed, and it never finds the heap
   * corrupt. A request of a valid size is served from the first listed
   * block that fits when there is one, without a collection; when none
   * fits and no collection has run yet, exactly one runs before the retry,
   * and after one has run the request is exhausted. A block it returns is
   * handed out: sized at least the need, cleared after its header and off
   * the free list.
   */
  lemma AllocOnShape(s: HeapState, B: seq<int>, L: seq<int>, size: int, objects: seq<int>, stack: seq<int>, gcDone: bool)
    requires Shape(s, B, L) && Roots(|s.w|, objects)
    ensures var a := AllocSpec(s, size, objects, stack, gcDone);
            var valid := MINBLOCKSIZE <= size <= MAXBLOCKSIZE;
            var need := NeededSize(size);
            WellFormed(a.state) &&
            (a.result.Allocated? || a.result == AllocFailed(InvalidRequest) || a.result == AllocFailed(Exhausted)) &&
            (a.result == AllocFailed(InvalidRequest) <==> !valid) &&
            (a.result.Allocated? ==> exists x :: a.result.p == 4 * x + 4 && HandedOut(a.state, size, x)) &&
            (valid && SomeFit(s.w, L, need) ==>
               a.state.stats.gcs == s.stats.gcs && exists k :: FirstFitOn(s.w, L, need, k) && a.result == Allocated(4 * L[k] + 4)) &&
            (valid && !SomeFit(s.w, L, need) && gcDone ==> a.result == AllocFailed(Exhausted)) &&
            (valid && !SomeFit(s.w, L, need) && !gcDone ==> a.state.stats.gcs == s.stats.gcs + 1)
  {
    if MINBLOCKSIZE <= size <= MAXBLOCKSIZE {
      var need := NeededSize(size);
      if gcDone || SomeFit(s.w, L, need) {
        NoGcOnShape(s, B, L, size, objects, stack, gcDone);
      } else {
        var found := Search(s.w, s.first, -1, need, |s.w| + 1);
        var s1 := s.(stats := s.stats.(searches := s.stats.searches + found.probes));
        SearchOnShape(s, B, L, need);
        MissRetries(s, s1, size, objects, stack);
        ShapeIgnoresStats(s, B, L, s1.stats);
        RetryCase(s1, B, L, size, objects, stack);
      }
    } else {
      assert Shape(s, B, L);
    }
  }
}
