// The Java heap as the allocator keeps it: an arena of 32-bit words that
// the operations rewrite in place, the offset of the first free block and
// the statistics counters. Each method is proved against the value-level
// function of the same operation in FreeList and Collector.

module JavaHeap {
  import opened HeapWords
  import opened FreeList
  import opened Collector

  /** What MyHeapAlloc hands back: the offset of the block's data, or the reason it gave up. */
  datatype AllocResult = Allocated(p: int) | AllocFailed(fault: Fault)

  /** An allocation's result and the heap afterwards. */
  datatype Allocation = Allocation(result: AllocResult, state: HeapState)

  /** The roots marked unconditionally must be pointers whose header lies in the arena. */
  predicate Roots(n: int, objects: seq<int>) {
    forall o :: o in objects ==> MarkTarget(n, o)
  }

  /**
   * The arena InitMyAlloc sets up for a requested size: the size rounded
   * down to a multiple of 4, all zero except one free block at offset 0
   * that spans the arena, ends the list and carries the pattern.
   */
  function InitialState(heapSize: int): (s: HeapState)
    requires MINBLOCKSIZE <= heapSize <= 0x7FFF_FFFF
    ensures 4 * |s.w| == heapSize - heapSize % 4 && WordsOk(s)
    ensures s.first == 0 && s.w[0] == 4 * |s.w| && NextOf(s.w, 0) == -1 && s.w[2] == FREELISTBITPATTERN
    ensures forall k :: 3 <= k < |s.w| ==> s.w[k] == 0
    ensures Tiles(s.w, 0, 4 * |s.w|)
    ensures s.stats == Stats(0, 0, 0, 0, 0, 0)
  {
    var size := heapSize - heapSize % 4;
    var w := seq(size / 4, k => if k == 0 then size else if k == 1 then U32(-1) else if k == 2 then FREELISTBITPATTERN else 0);
    assert Tiles(w, size, size);
    HeapState(w, 0, Stats(0, 0, 0, 0, 0, 0))
  }

  /**
   * MyHeapAlloc, with gcDone standing for its static gcAlreadyPerformed
   * flag: requests outside [MINBLOCKSIZE, MAXBLOCKSIZE] are refused; the
   * first fit is carved; a miss runs gc once and retries, and a miss on
   * the retry is the end. The carved block is cleared after its header, as
   * MyHeapAlloc's comment promises, where its code clears only two words.
   */
  ghost function AllocSpec(s: HeapState, size: int, objects: seq<int>, stack: seq<int>, gcDone: bool): (r: Allocation)
    requires WordsOk(s) && Roots(|s.w|, objects)
    ensures WordsOk(r.state) && |r.state.w| == |s.w|
    decreases if gcDone then 0 else 1, 2
  {
    if size < MINBLOCKSIZE || size > MAXBLOCKSIZE then Allocation(AllocFailed(InvalidRequest), s)
    else
      var need := NeededSize(size);
      var found := Search(s.w, s.first, -1, need, |s.w| + 1);
      AfterSearch(s.(stats := s.stats.(searches := s.stats.searches + found.probes)),
                  size, need, found.result, objects, stack, gcDone)
  }

  /** What MyHeapAlloc does with the outcome of its search, the probes already counted; a hit is carved by CarveZeroed. */
  ghost function AfterSearch(s: HeapState, size: int, need: int, found: SearchResult,
                             objects: seq<int>, stack: seq<int>, gcDone: bool): (r: Allocation)
    requires WordsOk(s) && Roots(|s.w|, objects)
    ensures WordsOk(r.state) && |r.state.w| == |s.w|
    decreases if gcDone then 0 else 1, 1
  {
    match found
    case Stop(f) => Allocation(AllocFailed(f), s)
    case Hit(at, prev, bs) => Allocation(Allocated(at + 4), CarveZeroed(s, at, prev, bs, need))
    case Miss =>
      if gcDone then Allocation(AllocFailed(Exhausted), s)
      else RetrySpec(s, size, objects, stack)
  }

  /** The exhaustion path: gc, then the request once more with the flag set. */
  ghost function RetrySpec(s: HeapState, size: int, objects: seq<int>, stack: seq<int>): (r: Allocation)
    requires WordsOk(s) && Roots(|s.w|, objects)
    ensures WordsOk(r.state) && |r.state.w| == |s.w|
    decreases 1, 0
  {
    var g := GcSpec(s, objects, stack);
    if g.status.Failed? then Allocation(AllocFailed(g.status.fault), g.state)
    else AllocSpec(g.state, size, objects, stack, true)
  }

  /**
   * An allocation is refused as invalid exactly when the size is out of
   * range; a block handed out is word aligned inside the arena with its
   * link and pattern words cleared, and the allocation is counted with the
   * needed size; at most one collection runs, and exhaustion is reported
   * only after it.
   */
  predicate AllocFacts(s: HeapState, size: int, gcDone: bool, r: AllocResult, t: HeapState) {
    var extra := if gcDone then 0 else 1;
    (r == AllocFailed(InvalidRequest) <==> size < MINBLOCKSIZE || size > MAXBLOCKSIZE) &&
    (r.Allocated? ==>
       r.p % 4 == 0 && 4 <= r.p <= 4 * |s.w| &&
       t.stats.allocations == s.stats.allocations + 1 &&
       t.stats.bytesRequested == s.stats.bytesRequested + NeededSize(size) &&
       (r.p / 4 + 1 < |t.w| ==> t.w[r.p / 4] == 0 && t.w[r.p / 4 + 1] == 0)) &&
    s.stats.gcs <= t.stats.gcs <= s.stats.gcs + extra &&
    (r == AllocFailed(Exhausted) ==> t.stats.gcs == s.stats.gcs + extra)
  }

  lemma {:induction false} AllocMeaning(s: HeapState, size: int, objects: seq<int>, stack: seq<int>, gcDone: bool)
    requires WordsOk(s) && Roots(|s.w|, objects)
    ensures var r := AllocSpec(s, size, objects, stack, gcDone); AllocFacts(s, size, gcDone, r.result, r.state)
    decreases if gcDone then 0 else 1, 2
  {
    if MINBLOCKSIZE <= size <= MAXBLOCKSIZE {
      var need := NeededSize(size);
      var found := Search(s.w, s.first, -1, need, |s.w| + 1);
      var s1 := s.(stats := s.stats.(searches := s.stats.searches + found.probes));
      AfterSearchMeaning(s, s1, size, found.result, objects, stack, gcDone);
    }
  }

  /** The same facts for each outcome of the search, measured from the state before it. */
  lemma {:induction false} AfterSearchMeaning(s: HeapState, s1: HeapState, size: int, found: SearchResult,
                                              objects: seq<int>, stack: seq<int>, gcDone: bool)
    requires WordsOk(s) && Roots(|s.w|, objects) && MINBLOCKSIZE <= size <= MAXBLOCKSIZE
    requires s1 == s.(stats := s.stats.(searches := s1.stats.searches))
    requires found.Hit? ==> 0 <= found.at < 4 * |s.w| && found.at % 4 == 0
    requires found.Stop? ==> found.fault == BadNextOffset || found.fault == BadSizeField || found.fault == Unending
    ensures var r := AfterSearch(s1, size, NeededSize(size), found, objects, stack, gcDone);
            AllocFacts(s, size, gcDone, r.result, r.state)
    decreases if gcDone then 0 else 1, 1
  {
    var need := NeededSize(size);
    match found
    case Stop(f) =>
      assert AfterSearch(s1, size, need, found, objects, stack, gcDone) == Allocation(AllocFailed(f), s1);
    case Hit(at, prev, bs) =>
      CarveFacts(s, s1, size, gcDone, at, prev, bs);
    case Miss =>
      if !gcDone {
        RetryMeaning(s1, size, objects, stack);
      }
  }

  /** The retry after a collection: the same facts, with exactly that one collection counted. */
  lemma {:induction false} RetryMeaning(s: HeapState, size: int, objects: seq<int>, stack: seq<int>)
    requires WordsOk(s) && Roots(|s.w|, objects) && MINBLOCKSIZE <= size <= MAXBLOCKSIZE
    ensures var r := RetrySpec(s, size, objects, stack); AllocFacts(s, size, false, r.result, r.state)
    decreases 1, 0
  {
    var g := GcSpec(s, objects, stack);
    if !g.status.Failed? {
      AllocMeaning(g.state, size, objects, stack, true);
    }
  }

  lemma CarveFacts(s: HeapState, s1: HeapState, size: int, gcDone: bool, at: int, prev: int, bs: int)
    requires WordsOk(s) && MINBLOCKSIZE <= size <= MAXBLOCKSIZE && 0 <= at < 4 * |s.w| && at % 4 == 0
    requires s1 == s.(stats := s1.stats) && s1.stats == s.stats.(searches := s1.stats.searches)
    ensures AllocFacts(s, size, gcDone, Allocated(at + 4), CarveZeroed(s1, at, prev, bs, NeededSize(size)))
  {
  }

  /** On a fresh arena the search takes the single block exactly when it is large enough. */
  lemma FreshSearch(heapSize: int, need: int)
    requires MINBLOCKSIZE <= heapSize <= 0x7FFF_FFFF
    ensures var s := InitialState(heapSize);
            var found := Search(s.w, s.first, -1, need, |s.w| + 1);
            (need <= 4 * |s.w| ==> found == Found(Hit(0, -1, 4 * |s.w|), 1)) &&
            (need > 4 * |s.w| ==> found.result == Miss)
  {
    var s := InitialState(heapSize);
    Int32RoundTrip(4 * |s.w|);
  }

  /**
   * The first allocation on a fresh arena that leaves room for a split
   * returns offset 4 and leaves the rest as the single free block; freeing
   * it puts the block back at the head of the list in front of the rest,
   * and the two free blocks still cover the arena.
   */
  lemma FreshAllocThenFree(heapSize: int, size: int)
    requires MINBLOCKSIZE <= size && MINBLOCKSIZE <= heapSize <= 0x7FFF_FFFF
    requires NeededSize(size) + MINBLOCKSIZE <= heapSize - heapSize % 4
    ensures var s := InitialState(heapSize);
            var need := NeededSize(size);
            var Allocation(r, t) := AllocSpec(s, size, [], [], false);
            var Effect(st, u) := FreeSpec(t, 4);
            r == Allocated(4) && t.first == need && t.w[0] == need &&
            t.w[need / 4] == 4 * |s.w| - need && NextOf(t.w, need) == -1 &&
            st == Ok && u.first == 0 && NextOf(u.w, 0) == need && u.w[2] == FREELISTBITPATTERN &&
            u.w[0] + u.w[need / 4] == 4 * |s.w| && Tiles(u.w, 0, 4 * |s.w|)
  {
    var s := InitialState(heapSize);
    var n := 4 * |s.w|;
    var need := NeededSize(size);
    FreshSearch(heapSize, need);
    var s1 := s.(stats := s.stats.(searches := 1));
    var t := CarveZeroed(s1, 0, -1, n, need);
    assert AllocSpec(s, size, [], [], false) == Allocation(Allocated(4), t);
    assert t.w[need / 4 + 1] == U32(-1);
    Int32RoundTrip(-1);
    Int32RoundTrip(need);
    assert !Adjoins(t, 0);
    var u := FreeSpec(t, 4).state;
    assert u.w[0] == need && u.w[need / 4] == n - need;
    assert Tiles(u.w, n, n);
    assert Tiles(u.w, need, n);
  }

  class Heap {
    var words: array<int>
    var first: int
    var stats: Stats

    /** Every word is a 32-bit value and byte offsets stay below the mark bit. */
    ghost predicate Valid()
      reads this, words
    {
      AllU32(words[..]) && 4 * words.Length < MARKBIT
    }

    ghost function State(): HeapState
      reads this, words
    {
      HeapState(words[..], first, stats)
    }

    /** InitMyAlloc: a zeroed arena holding one free block that spans it. */
    constructor (heapSize: int)
      requires MINBLOCKSIZE <= heapSize <= 0x7FFF_FFFF
      ensures Valid() && fresh(words)
      ensures State() == InitialState(heapSize)
    {
      var size := heapSize - heapSize % 4;
      words := new int[size / 4](_ => 0);
      new;
      words[0] := size;
      words[1] := U32(-1);
      words[2] := FREELISTBITPATTERN;
      first := 0;
      stats := Stats(0, 0, 0, 0, 0, 0);
      assert words[..] == InitialState(heapSize).w;
    }

    /** A word read through an offset: out of the arena it reads 0. */
    method Load(i: int) returns (v: int)
      requires Valid()
      ensures v == At(words[..], i) && IsU32(v)
    {
      if 0 <= i < words.Length {
        v := words[i];
      } else {
        v := 0;
      }
    }

    /** A word store; one outside the arena is dropped. */
    method Store(i: int, v: int)
      requires Valid() && IsU32(v)
      modifies words
      ensures Valid() && words[..] == Put(old(words[..]), i, v)
    {
      if 0 <= i < words.Length {
        words[i] := v;
      }
    }

    /** The search loop of MyHeapAlloc, bounded by one probe more than the arena has words. */
    method FindBlock(need: int) returns (r: SearchResult, probes: nat)
      requires Valid()
      ensures Found(r, probes) == Search(words[..], first, -1, need, words.Length + 1)
    {
      ghost var w := words[..];
      ghost var total := Search(w, first, -1, need, |w| + 1);
      var offset := first;
      var prev := -1;
      var fuel: nat := words.Length + 1;
      ghost var rest := total;
      probes := 0;
      while offset >= 0
        invariant w == words[..]
        invariant rest == Search(w, offset, prev, need, fuel)
        invariant total == rest.(probes := rest.probes + probes)
        decreases fuel
      {
        if fuel == 0 {
          return Stop(Unending), probes;
        }
        probes := probes + 1;
        if offset % 4 != 0 || offset >= 4 * words.Length {
          return Stop(BadNextOffset), probes;
        }
        var bs := AsInt32(words[offset / 4]);
        if bs < MINBLOCKSIZE || bs % 4 != 0 {
          return Stop(BadSizeField), probes;
        }
        if bs - need >= 0 {
          return Hit(offset, prev, bs), probes;
        }
        var link := Load(offset / 4 + 1);
        assert AsInt32(link) == NextOf(w, offset);
        SearchSkips(w, offset, prev, need, fuel);
        prev := offset;
        offset := AsInt32(link);
        fuel := fuel - 1;
        rest := Search(w, offset, prev, need, fuel);
      }
      return Miss, probes;
    }

    /** Hands out the block found at `at`: split or unlink, clear its link and pattern, count it. */
    method CarveBlock(at: int, prev: int, bs: int, need: int)
      requires Valid()
      modifies this, words
      ensures Valid() && words == old(words)
      ensures State() == Carve(old(State()), at, prev, bs, need)
    {
      if bs - need < MINBLOCKSIZE {
        UnlinkBlock(at, prev);
      } else {
        SplitBlock(at, prev, bs, need);
      }
      Store(at / 4 + 1, 0);
      Store(at / 4 + 2, 0);
      stats := stats.(bytesRequested := stats.bytesRequested + need, allocations := stats.allocations + 1);
    }

    /** The rest of the handed-out block cleared, words lo .. hi - 1, as MyHeapAlloc's comment promises; indexes outside the arena are skipped. */
    method ZeroBlock(lo: int, hi: int)
      requires Valid()
      modifies words
      ensures Valid() && words[..] == ZeroWords(old(words[..]), lo, hi)
    {
      ghost var w0 := words[..];
      var k := if lo < 0 then 0 else lo;
      var end := if hi > words.Length then words.Length else hi;
      while k < end
        invariant Valid() && 0 <= k && lo <= k
        invariant k <= end || k == (if lo < 0 then 0 else lo)
        invariant forall i :: 0 <= i < words.Length ==> words[i] == if lo <= i < k then 0 else w0[i]
        decreases end - k
      {
        words[k] := 0;
        k := k + 1;
      }
      assert words[..] == ZeroWords(w0, lo, hi);
    }

    method UnlinkBlock(at: int, prev: int)
      requires Valid()
      modifies this, words
      ensures Valid() && words == old(words)
      ensures State() == Unlink(old(State()), at, prev)
    {
      var link := Load(at / 4 + 1);
      if prev < 0 {
        first := AsInt32(link);
      } else {
        Store(prev / 4 + 1, link);
      }
    }

    method SplitBlock(at: int, prev: int, bs: int, need: int)
      requires Valid()
      modifies this, words
      ensures Valid() && words == old(words)
      ensures State() == Split(old(State()), at, prev, bs, need)
    {
      ShrinkBlock(at, prev, need);
      PlaceRest(at, at + need, bs - need);
    }

    method ShrinkBlock(at: int, prev: int, need: int)
      requires Valid()
      modifies this, words
      ensures Valid() && words == old(words)
      ensures State() == Shrink(old(State()), at, prev, need)
    {
      Store(at / 4, U32(need));
      if prev < 0 {
        first := first + need;
      } else {
        var link := Load(prev / 4 + 1);
        Store(prev / 4 + 1, U32(AsInt32(link) + need));
      }
    }

    method PlaceRest(at: int, nb: int, diff: int)
      requires Valid()
      modifies words
      ensures Valid()
      ensures State() == FreeList.PlaceRest(old(State()), at, nb, diff)
    {
      Store(nb / 4, U32(diff));
      var link := Load(at / 4 + 1);
      Store(nb / 4 + 1, link);
      Store(nb / 4 + 2, FREELISTBITPATTERN);
    }

    /** MyHeapFree. */
    method Free(p: int) returns (st: Status)
      requires Valid()
      modifies this, words
      ensures Valid() && words == old(words)
      ensures Effect(st, State()) == FreeSpec(old(State()), p)
    {
      if p < 0 || p >= 4 * words.Length || p % 4 != 0 {
        return Failed(BadPointer);
      }
      var p1 := p - 4;
      var raw := Load(p1 / 4);
      var bs := AsInt32(raw);
      if bs < MINBLOCKSIZE || p1 + bs > 4 * words.Length || bs % 4 != 0 {
        return Failed(InvalidBlock);
      }
      if first > -1 {
        var head := Load(first / 4);
        if head + first == p1 {
          Store(first / 4, U32(head + raw));
          return Ok;
        }
      }
      PushFree(p1);
      return Ok;
    }

    /** The freed block at p1 becomes the head of the list, linked to the old head and carrying the pattern. */
    method PushFree(p1: int)
      requires Valid()
      modifies this, words
      ensures Valid() && words == old(words) && stats == old(stats) && first == p1
      ensures words[..] == Put(Put(old(words[..]), p1 / 4 + 1, U32(old(first))), p1 / 4 + 2, FREELISTBITPATTERN)
    {
      Store(p1 / 4 + 1, U32(first));
      Store(p1 / 4 + 2, FREELISTBITPATTERN);
      first := p1;
    }

    /** mark: sets the header's mark bit and marks every probable pointer among the block's words. */
    method Mark(p: int)
      requires Valid() && MarkTarget(words.Length, p)
      modifies words
      ensures Valid() && words[..] == MarkSpec(old(words[..]), p)
      decreases Unmarked(words[..]), 0
    {
      var h := words[p / 4 - 1];
      if h < MARKBIT {
        ghost var w0 := words[..];
        words[p / 4 - 1] := h + MARKBIT;
        assert words[..] == WithMark(w0, p / 4 - 1);
        MarkWords(p / 4, ScanLength(h));
      }
    }

    /** The scan loop of mark over the n words from index base. */
    method MarkWords(base: int, n: nat)
      requires Valid()
      modifies words
      ensures Valid() && words[..] == MarkFrom(old(words[..]), base, 0, n)
      decreases Unmarked(words[..]), 2
    {
      ghost var w1 := words[..];
      var i := 0;
      while i < n
        invariant 0 <= i <= n && Valid()
        invariant Unmarked(words[..]) <= Unmarked(w1)
        invariant MarkFrom(words[..], base, i, n) == MarkFrom(w1, base, 0, n)
      {
        MarkWord(base, i, n);
        i := i + 1;
      }
    }

    /** One pass of the scan loop: the word at base + i is marked through if it is a probable pointer. */
    method MarkWord(base: int, i: nat, n: nat)
      requires Valid() && i < n
      modifies words
      ensures Valid() && Unmarked(words[..]) <= Unmarked(old(words[..]))
      ensures MarkFrom(words[..], base, i + 1, n) == MarkFrom(old(words[..]), base, i, n)
      decreases Unmarked(words[..]), 1
    {
      MarkFromStep(words[..], base, i, n);
      var v := Load(base + i);
      if IsProbablePointer(words[..], v) {
        Mark(v);
      }
    }

    /** One block of sweep at byte offset it. */
    method SweepBlock(it: int) returns (st: Status)
      requires Valid()
      modifies this, words
      ensures Valid() && words == old(words)
      ensures Effect(st, State()) == SweepStep(old(State()), it)
    {
      var h := Load(it / 4);
      if h < MARKBIT {
        var pattern := Load(it / 4 + 2);
        if pattern != FREELISTBITPATTERN {
          stats := stats.(bytesRecovered := stats.bytesRecovered + h, blocksRecovered := stats.blocksRecovered + 1);
        }
        st := Free(it + 4);
      } else {
        Store(it / 4, h - MARKBIT);
        st := Ok;
      }
    }

    /** sweep: rebuild the free list by walking the arena block by block. */
    method Sweep() returns (st: Status)
      requires Valid()
      modifies this, words
      ensures Valid() && words == old(words)
      ensures Effect(st, State()) == Collector.Sweep(old(State()))
    {
      first := -1;
      var it := 0;
      while it < 4 * words.Length
        invariant Valid() && it >= 0 && words == old(words)
        invariant SweepFrom(State(), it) == Collector.Sweep(old(State()))
        decreases 4 * words.Length - it
      {
        var next;
        st, next := SweepAt(it);
        if st != Ok {
          return;
        }
        it := next;
      }
      return Ok;
    }

    /** One turn of the sweep loop: the block at it, then the step to the next header. */
    method SweepAt(it: int) returns (st: Status, next: int)
      requires Valid() && 0 <= it < 4 * words.Length
      modifies this, words
      ensures Valid() && words == old(words)
      ensures st != Ok ==> Effect(st, State()) == SweepFrom(old(State()), it)
      ensures st == Ok ==> next > it && SweepFrom(State(), next) == SweepFrom(old(State()), it)
    {
      next := it;
      ghost var s0 := State();
      st := SweepBlock(it);
      if st != Ok {
        return;
      }
      SweepFromStep(s0, it);
      var h := Load(it / 4);
      var sz := MaskedSize(h);
      if sz == 0 {
        return Failed(Unending), it;
      }
      if sz % 4 != 0 {
        return Failed(Misaligned), it;
      }
      next := it + sz;
    }

    /** gc: count it, mark the objects, then the probable pointers on the stack, then sweep. */
    method Collect(objects: seq<int>, stack: seq<int>) returns (st: Status)
      requires Valid() && Roots(words.Length, objects)
      modifies this, words
      ensures Valid() && words == old(words)
      ensures Effect(st, State()) == GcSpec(old(State()), objects, stack)
    {
      stats := stats.(gcs := stats.gcs + 1);
      MarkObjectRoots(objects);
      MarkStackRoots(stack);
      st := Sweep();
    }

    /** The unconditional roots of gc, each handed to mark. */
    method MarkObjectRoots(objects: seq<int>)
      requires Valid() && Roots(words.Length, objects)
      modifies words
      ensures Valid() && words[..] == MarkObjects(old(words[..]), objects)
    {
      var i := 0;
      while i < |objects|
        invariant 0 <= i <= |objects| && Valid()
        invariant Roots(words.Length, objects[i..])
        invariant MarkObjects(words[..], objects[i..]) == MarkObjects(old(words[..]), objects)
      {
        assert objects[i..][1..] == objects[i + 1..];
        Mark(objects[i]);
        i := i + 1;
      }
      assert objects[i..] == [];
    }

    /** The interpreter-stack values, each handed to mark if it is a probable pointer. */
    method MarkStackRoots(stack: seq<int>)
      requires Valid()
      modifies words
      ensures Valid() && words[..] == MarkStack(old(words[..]), stack)
    {
      var j := 0;
      while j < |stack|
        invariant 0 <= j <= |stack| && Valid()
        invariant MarkStack(words[..], stack[j..]) == MarkStack(old(words[..]), stack)
      {
        assert stack[j..][1..] == stack[j + 1..];
        if IsProbablePointer(words[..], stack[j]) {
          Mark(stack[j]);
        }
        j := j + 1;
      }
      assert stack[j..] == [];
    }

    /** MyHeapAlloc; gcAlreadyPerformed is its static flag, false on every call from outside. */
    method Allocate(size: int, objects: seq<int>, stack: seq<int>, gcAlreadyPerformed: bool) returns (r: AllocResult)
      requires Valid() && Roots(words.Length, objects)
      modifies this, words
      ensures Valid() && words == old(words)
      ensures Allocation(r, State()) == AllocSpec(old(State()), size, objects, stack, gcAlreadyPerformed)
      decreases if gcAlreadyPerformed then 0 else 1, 2
    {
      if size < MINBLOCKSIZE || size > MAXBLOCKSIZE {
        return AllocFailed(InvalidRequest);
      }
      var need := NeededSize(size);
      var found, probes := FindBlock(need);
      stats := stats.(searches := stats.searches + probes);
      r := FinishAllocation(size, need, found, objects, stack, gcAlreadyPerformed);
    }

    /** The tail of MyHeapAlloc: carve the block found, or give up, or collect and retry. */
    method FinishAllocation(size: int, need: int, found: SearchResult, objects: seq<int>, stack: seq<int>,
                            gcAlreadyPerformed: bool) returns (r: AllocResult)
      requires Valid() && Roots(words.Length, objects)
      modifies this, words
      ensures Valid() && words == old(words)
      ensures Allocation(r, State()) == AfterSearch(old(State()), size, need, found, objects, stack, gcAlreadyPerformed)
      decreases if gcAlreadyPerformed then 0 else 1, 1
    {
      match found {
        case Stop(f) =>
          return AllocFailed(f);
        case Hit(at, prev, bs) =>
          CarveBlock(at, prev, bs, need);
          ZeroBlock(at / 4 + 3, (at + CarvedSize(bs, need)) / 4);
          return Allocated(at + 4);
        case Miss =>
          if gcAlreadyPerformed {
            return AllocFailed(Exhausted);
          }
          r := CollectAndRetry(size, objects, stack);
      }
    }

    /** The exhaustion path of MyHeapAlloc: gc, then the request once more with the flag set. */
    method CollectAndRetry(size: int, objects: seq<int>, stack: seq<int>) returns (r: AllocResult)
      requires Valid() && Roots(words.Length, objects)
      modifies this, words
      ensures Valid() && words == old(words)
      ensures Allocation(r, State()) == RetrySpec(old(State()), size, objects, stack)
      decreases 1, 0
    {
      var st := Collect(objects, stack);
      if st.Failed? {
        return AllocFailed(st.fault);
      }
      r := Allocate(size, objects, stack, true);
    }
  }
}
