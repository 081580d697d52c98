// The Java heap: a first-fit free-list allocator over an arena of 32-bit
// words, and a mark-sweep collector. Heap pointers are byte offsets from the
// start of the arena; the word at byte offset o has index o / 4.
//
// Block layout (byte offsets from the block start):
//   +0  size in bytes, including this word; the top bit is the mark bit
//   +4  offset of the next free block as a signed 32-bit value, -1 ending the list
//   +8  FREELISTBITPATTERN while the block is on the free list
// An allocated block is handed out as a pointer to +4.

module HeapWords {

  const MINBLOCKSIZE: int := 12
  const MAXBLOCKSIZE: int := 0x7FFF_FFFB
  const FREELISTBITPATTERN: int := 0x0BAD_A550
  const MARKBIT: int := 0x8000_0000
  const TWO32: int := 0x1_0000_0000

  predicate IsU32(x: int) {
    0 <= x < TWO32
  }

  predicate AllU32(w: seq<int>) {
    forall i :: 0 <= i < |w| ==> IsU32(w[i])
  }

  /** Reduction to an unsigned 32-bit word, as a store into a uint32_t does. */
  function U32(x: int): (r: int)
    ensures IsU32(r)
    ensures 0 <= x < TWO32 ==> r == x
  {
    x % TWO32
  }

  /** The signed reading of a word, as a conversion to int32_t does on a two's-complement machine. */
  function AsInt32(x: int): (r: int)
    ensures -MARKBIT <= r < MARKBIT
    ensures U32(r) == U32(x)
  {
    var y := x % TWO32;
    if y >= MARKBIT then y - TWO32 else y
  }

  /** Storing a signed value and reading it back gives the value. */
  lemma Int32RoundTrip(v: int)
    requires -MARKBIT <= v < MARKBIT
    ensures AsInt32(U32(v)) == v
  {
  }

  /** The word at index i; words outside the arena read as 0. */
  function At(w: seq<int>, i: int): (r: int)
    ensures AllU32(w) ==> IsU32(r)
    ensures 0 <= i < |w| ==> r == w[i]
  {
    if 0 <= i < |w| then w[i] else 0
  }

  /** w with word i replaced; a store outside the arena is dropped. */
  function Put(w: seq<int>, i: int, v: int): (r: seq<int>)
    ensures |r| == |w|
    ensures forall k :: 0 <= k < |w| && k != i ==> r[k] == w[k]
    ensures 0 <= i < |w| ==> r[i] == v
    ensures AllU32(w) && IsU32(v) ==> AllU32(r)
  {
    if 0 <= i < |w| then w[i := v] else w
  }

  /** The size field of a header with the mark bit masked off. */
  function MaskedSize(x: int): (r: int)
    requires IsU32(x)
    ensures 0 <= r < MARKBIT
  {
    x % MARKBIT
  }

  /** The free-list link of the block at byte offset o. */
  function NextOf(w: seq<int>, o: int): int {
    AsInt32(At(w, o / 4 + 1))
  }
}

// The allocator's functions, stated on values: the arena's words, the offset
// of the first free block and the statistics counters.
module FreeList {
  import opened HeapWords

  datatype Stats = Stats(bytesRequested: int, allocations: int, gcs: int,
                         bytesRecovered: int, blocksRecovered: int, searches: int)

  datatype HeapState = HeapState(w: seq<int>, first: int, stats: Stats)

  /** The conditions under which the source gives up with exit(1), and the two under which it never ends. */
  datatype Fault = InvalidRequest | BadNextOffset | BadSizeField | Exhausted
                 | BadPointer | InvalidBlock | Unending | Misaligned

  datatype Status = Ok | Failed(fault: Fault)

  /** What an operation that may fail leaves behind: its status and the heap afterwards. */
  datatype Effect = Effect(status: Status, state: HeapState)

  /** b agrees with a on the counters the collector does not touch. */
  predicate KeepsAllocStats(a: Stats, b: Stats) {
    b.bytesRequested == a.bytesRequested && b.allocations == a.allocations &&
    b.gcs == a.gcs && b.searches == a.searches
  }

  /** The faults the collector can end with. */
  predicate CollectorFault(f: Fault) {
    f == BadPointer || f == InvalidBlock || f == Unending || f == Misaligned
  }

  predicate WordsOk(s: HeapState) {
    AllU32(s.w) && 4 * |s.w| < MARKBIT
  }

  // ---- the request size ---------------------------------------------------

  /**
   * The request size rounded as written: (size + 4 + 3) & 0xfffffffc is
   * computed unsigned and then stored into an int.
   */
  function NeededSizeAsWritten(size: int): int {
    var v := U32(size + 7);
    AsInt32(v - v % 4)
  }

  /** The needed size as intended: room for the size word, rounded up to a multiple of 4. */
  function NeededSize(size: int): (r: int)
    ensures r % 4 == 0 && size + 4 <= r <= size + 7
  {
    var v := size + 7;
    v - v % 4
  }

  /** The two agree on every valid request except the three largest, where the int wraps negative. */
  lemma NeededSizeWraps(size: int)
    requires MINBLOCKSIZE <= size <= MAXBLOCKSIZE
    ensures size <= 0x7FFF_FFF8 ==> NeededSizeAsWritten(size) == NeededSize(size)
    ensures size >= 0x7FFF_FFF9 ==> NeededSizeAsWritten(size) == -MARKBIT
  {
  }

  lemma NeededSizeCounterexample()
    ensures NeededSizeAsWritten(0x7FFF_FFF9) < 0 < NeededSize(0x7FFF_FFF9)
  {
    NeededSizeWraps(0x7FFF_FFF9);
  }

  // ---- the first-fit search -------------------------------------------------

  datatype SearchResult = Hit(at: int, prev: int, size: int) | Miss | Stop(fault: Fault)

  /** A search's outcome and the number of blocks it probed (what searchCount grows by). */
  datatype Found = Found(result: SearchResult, probes: nat)

  /**
   * The search loop of MyHeapAlloc from `offset`, with `prev` the block
   * visited before it (-1 for none). `fuel` bounds the walk; a list that
   * outlasts it is one the source walks forever.
   */
  function Search(w: seq<int>, offset: int, prev: int, need: int, fuel: nat): (r: Found)
    ensures r.result.Hit? ==>
              0 <= r.result.at < 4 * |w| && r.result.at % 4 == 0 && r.result.size >= need &&
              r.result.size >= MINBLOCKSIZE && r.result.size % 4 == 0 && r.result.size == AsInt32(w[r.result.at / 4])
    ensures r.result.Stop? ==> r.result.fault == BadNextOffset || r.result.fault == BadSizeField || r.result.fault == Unending
    decreases fuel
  {
    if offset < 0 then Found(Miss, 0)
    else if fuel == 0 then Found(Stop(Unending), 0)
    else if offset % 4 != 0 || offset >= 4 * |w| then Found(Stop(BadNextOffset), 1)
    else
      var bs := AsInt32(w[offset / 4]);
      if bs < MINBLOCKSIZE || bs % 4 != 0 then Found(Stop(BadSizeField), 1)
      else if bs - need >= 0 then Found(Hit(offset, prev, bs), 1)
      else
        var rest := Search(w, NextOf(w, offset), offset, need, fuel - 1);
        rest.(probes := rest.probes + 1)
  }

  /** A probe of a plausible block too small for the request moves on to its link. */
  lemma SearchSkips(w: seq<int>, offset: int, prev: int, need: int, fuel: nat)
    requires 0 <= offset < 4 * |w| && offset % 4 == 0 && fuel > 0
    requires var bs := AsInt32(w[offset / 4]); bs >= MINBLOCKSIZE && bs % 4 == 0 && bs < need
    ensures var rest := Search(w, NextOf(w, offset), offset, need, fuel - 1);
            Search(w, offset, prev, need, fuel) == rest.(probes := rest.probes + 1)
  {
  }

  /** The k-th offset on the list that starts at o. */
  function ChainAt(w: seq<int>, o: int, k: nat): int
    decreases k
  {
    if k == 0 then o else ChainAt(w, NextOf(w, o), k - 1)
  }

  /**
   * First fit: a hit is the k-th block of the list, its size covers the
   * request, every block before it is too small, `prev` is the block before
   * it, and the search probed k + 1 blocks.
   */
  lemma {:induction false} FirstFit(w: seq<int>, offset: int, prev: int, need: int, fuel: nat)
    requires Search(w, offset, prev, need, fuel).result.Hit?
    ensures var Found(r, n) := Search(w, offset, prev, need, fuel);
            n >= 1 && r.at == ChainAt(w, offset, n - 1) &&
            (r.prev == if n == 1 then prev else ChainAt(w, offset, n - 2)) &&
            forall j :: 0 <= j < n - 1 ==> AsInt32(At(w, ChainAt(w, offset, j) / 4)) < need
    decreases fuel
  {
    var bs := AsInt32(w[offset / 4]);
    if bs - need < 0 {
      var next := NextOf(w, offset);
      FirstFit(w, next, offset, need, fuel - 1);
      var n := Search(w, next, offset, need, fuel - 1).probes;
      assert forall j :: 1 <= j <= n ==> ChainAt(w, offset, j) == ChainAt(w, next, j - 1);
    }
  }

  /**
   * The other half of first fit: a miss walked the whole list to its end,
   * and every block the search probed was too small for the request.
   */
  lemma {:induction false} MissMeansNoFit(w: seq<int>, offset: int, prev: int, need: int, fuel: nat)
    requires Search(w, offset, prev, need, fuel).result.Miss?
    ensures var n := Search(w, offset, prev, need, fuel).probes;
            ChainAt(w, offset, n) < 0 &&
            forall j :: 0 <= j < n ==> AsInt32(At(w, ChainAt(w, offset, j) / 4)) < need
    decreases fuel
  {
    if offset >= 0 {
      var next := NextOf(w, offset);
      MissMeansNoFit(w, next, offset, need, fuel - 1);
      var n := Search(w, next, offset, need, fuel - 1).probes;
      assert forall j :: 1 <= j <= n ==> ChainAt(w, offset, j) == ChainAt(w, next, j - 1);
    }
  }

  // ---- handing out a block --------------------------------------------------

  /**
   * What MyHeapAlloc does once the search hit the block at `at`: split off
   * the leftover as a new free block in the same list position if it is at
   * least MINBLOCKSIZE, otherwise unlink the whole block; then clear the
   * block's link and pattern words and count the allocation.
   */
  function Carve(s: HeapState, at: int, prev: int, bs: int, need: int): (r: HeapState)
    requires AllU32(s.w)
    ensures |r.w| == |s.w| && AllU32(r.w)
    ensures r.stats == s.stats.(bytesRequested := s.stats.bytesRequested + need,
                                allocations := s.stats.allocations + 1)
    ensures 0 <= at / 4 + 1 && at / 4 + 2 < |s.w| ==> r.w[at / 4 + 1] == 0 && r.w[at / 4 + 2] == 0
  {
    var cut := if bs - need < MINBLOCKSIZE then Unlink(s, at, prev) else Split(s, at, prev, bs, need);
    var w := Put(Put(cut.w, at / 4 + 1, 0), at / 4 + 2, 0);
    HeapState(w, cut.first,
              s.stats.(bytesRequested := s.stats.bytesRequested + need, allocations := s.stats.allocations + 1))
  }

  /** The whole block at `at` leaves the list: its link goes to the head or to the block before it. */
  function Unlink(s: HeapState, at: int, prev: int): (r: HeapState)
    requires AllU32(s.w)
    ensures |r.w| == |s.w| && AllU32(r.w) && r.stats == s.stats
  {
    var link := At(s.w, at / 4 + 1);
    if prev < 0 then s.(first := AsInt32(link))
    else s.(w := Put(s.w, prev / 4 + 1, link))
  }

  /**
   * The block at `at` shrinks to `need` and the rest becomes a free block
   * right after it that takes its place in the list, with its link and
   * the pattern.
   */
  function Split(s: HeapState, at: int, prev: int, bs: int, need: int): (r: HeapState)
    requires AllU32(s.w)
    ensures |r.w| == |s.w| && AllU32(r.w) && r.stats == s.stats
  {
    PlaceRest(Shrink(s, at, prev, need), at, at + need, bs - need)
  }

  /** The block's header becomes `need` and the link that reached it now reaches `need` bytes further on. */
  function Shrink(s: HeapState, at: int, prev: int, need: int): (r: HeapState)
    requires AllU32(s.w)
    ensures |r.w| == |s.w| && AllU32(r.w) && r.stats == s.stats
  {
    var w1 := Put(s.w, at / 4, U32(need));
    if prev < 0 then s.(w := w1, first := s.first + need)
    else s.(w := Put(w1, prev / 4 + 1, U32(AsInt32(At(w1, prev / 4 + 1)) + need)))
  }

  /** The leftover block at nb: its size, the link of the block at `at`, and the pattern. */
  function PlaceRest(s: HeapState, at: int, nb: int, diff: int): (r: HeapState)
    requires AllU32(s.w)
    ensures |r.w| == |s.w| && AllU32(r.w) && r.stats == s.stats && r.first == s.first
  {
    var w3 := Put(s.w, nb / 4, U32(diff));
    var w4 := Put(w3, nb / 4 + 1, At(w3, at / 4 + 1));
    s.(w := Put(w4, nb / 4 + 2, FREELISTBITPATTERN))
  }

  /** The block's link word lies outside the block at `at` of `bs` bytes (no overlap between list blocks). */
  predicate LinkOutside(prev: int, at: int, bs: int) {
    prev < 0 || prev + 8 <= at || at + bs <= prev + 4
  }

  /**
   * Splitting keeps the total size: the handed-out block shrinks to `need`
   * and the leftover block right after it has the rest, the leftover's link
   * is the old link and it carries the pattern, and its offset takes the
   * block's place in the list. Without a split the block keeps its size and
   * its successor takes its place.
   */
  lemma CarveKeepsTotal(s: HeapState, at: int, prev: int, bs: int, need: int)
    requires AllU32(s.w) && 0 <= at && at % 4 == 0 && at + bs <= 4 * |s.w|
    requires need % 4 == 0 && need >= 16 && bs >= need && IsU32(bs)
    requires 4 * |s.w| < MARKBIT
    requires LinkOutside(prev, at, bs) && prev % 4 == 0 && prev + 8 <= 4 * |s.w|
    requires prev < 0 ==> s.first == at
    requires prev >= 0 ==> NextOf(s.w, prev) == at
    ensures var r := Carve(s, at, prev, bs, need);
            var diff := bs - need;
            (diff >= MINBLOCKSIZE ==>
               r.w[at / 4] == need && r.w[(at + need) / 4] == diff && r.w[at / 4] + r.w[(at + need) / 4] == bs &&
               r.w[(at + need) / 4 + 1] == s.w[at / 4 + 1] && r.w[(at + need) / 4 + 2] == FREELISTBITPATTERN &&
               (if prev < 0 then r.first else NextOf(r.w, prev)) == at + need) &&
            (diff < MINBLOCKSIZE ==>
               r.w[at / 4] == s.w[at / 4] &&
               (if prev < 0 then r.first else NextOf(r.w, prev)) == NextOf(s.w, at))
  {
    var cut := if bs - need < MINBLOCKSIZE then Unlink(s, at, prev) else Split(s, at, prev, bs, need);
    if bs - need >= MINBLOCKSIZE {
      SplitPlacesRest(s, at, prev, bs, need);
    } else {
      UnlinkSkips(s, at, prev, bs);
    }
    var r := Carve(s, at, prev, bs, need);
    assert r.first == cut.first && r.w == Put(Put(cut.w, at / 4 + 1, 0), at / 4 + 2, 0);
  }

  lemma SplitPlacesRest(s: HeapState, at: int, prev: int, bs: int, need: int)
    requires AllU32(s.w) && 0 <= at && at % 4 == 0 && at + bs <= 4 * |s.w|
    requires need % 4 == 0 && need >= 16 && bs - need >= MINBLOCKSIZE && IsU32(bs)
    requires 4 * |s.w| < MARKBIT
    requires LinkOutside(prev, at, bs) && prev % 4 == 0 && prev + 8 <= 4 * |s.w|
    requires prev < 0 ==> s.first == at
    requires prev >= 0 ==> NextOf(s.w, prev) == at
    ensures var r := Split(s, at, prev, bs, need);
            var nb := at + need;
            r.w[at / 4] == need && r.w[nb / 4] == bs - need &&
            r.w[nb / 4 + 1] == s.w[at / 4 + 1] && r.w[nb / 4 + 2] == FREELISTBITPATTERN &&
            (if prev < 0 then r.first else NextOf(r.w, prev)) == nb
  {
    if prev >= 0 {
      var w1 := Put(s.w, at / 4, U32(need));
      assert At(w1, prev / 4 + 1) == s.w[prev / 4 + 1];
      assert AsInt32(s.w[prev / 4 + 1]) == at;
      Int32RoundTrip(at + need);
    }
  }

  lemma UnlinkSkips(s: HeapState, at: int, prev: int, bs: int)
    requires AllU32(s.w) && 0 <= at && at % 4 == 0 && at + bs <= 4 * |s.w| && bs >= 16
    requires LinkOutside(prev, at, bs) && prev % 4 == 0 && prev + 8 <= 4 * |s.w|
    ensures var r := Unlink(s, at, prev);
            r.w[at / 4] == s.w[at / 4] &&
            (if prev < 0 then r.first else NextOf(r.w, prev)) == NextOf(s.w, at)
  {
  }

  // ---- the zeroed block that MyHeapAlloc promises ---------------------------

  /** The size the handed-out block keeps: the need after a split, the whole block otherwise. */
  function CarvedSize(bs: int, need: int): (r: int)
    ensures r == bs || r == need
    ensures bs >= need ==> r >= need
  {
    if bs - need < MINBLOCKSIZE then bs else need
  }

  /** w with the words at indexes lo .. hi - 1 set to 0. */
  function ZeroWords(w: seq<int>, lo: int, hi: int): (r: seq<int>)
    ensures |r| == |w| && (AllU32(w) ==> AllU32(r))
    ensures forall k :: 0 <= k < |w| ==> r[k] == if lo <= k < hi then 0 else w[k]
  {
    seq(|w|, k requires 0 <= k < |w| => if lo <= k < hi then 0 else w[k])
  }

  /**
   * Carve completed as the comment on MyHeapAlloc promises: every word of the
   * handed-out block after its header reads 0, not only the link and the
   * pattern word; everything else is as Carve leaves it.
   */
  function CarveZeroed(s: HeapState, at: int, prev: int, bs: int, need: int): (r: HeapState)
    requires AllU32(s.w)
    ensures var c := Carve(s, at, prev, bs, need);
            var end := (at + CarvedSize(bs, need)) / 4;
            |r.w| == |s.w| && AllU32(r.w) && r.first == c.first && r.stats == c.stats &&
            (forall k :: 0 <= k < |r.w| && at / 4 < k < end ==> r.w[k] == 0) &&
            (forall k :: 0 <= k < |r.w| && !(at / 4 < k < end) ==> r.w[k] == c.w[k])
  {
    var c := Carve(s, at, prev, bs, need);
    c.(w := ZeroWords(c.w, at / 4 + 3, (at + CarvedSize(bs, need)) / 4))
  }

  /**
   * A block too small to split is handed out whole, and Carve leaves its
   * third data word as it was: here the 7 a previous owner left behind.
   */
  lemma CarveLeavesStaleWords()
    ensures var s := HeapState([24, U32(-1), FREELISTBITPATTERN, 7, 0, 0], 0, Stats(0, 0, 0, 0, 0, 0));
            var need := NeededSize(12);
            Search(s.w, s.first, -1, need, |s.w| + 1) == Found(Hit(0, -1, 24), 1) &&
            Carve(s, 0, -1, 24, need).w[3] == 7 && CarveZeroed(s, 0, -1, 24, need).w[3] == 0
  {
    assert NeededSize(12) == 16;
    Int32RoundTrip(24);
  }

  // ---- freeing a block ------------------------------------------------------

  /** The block at p1 starts exactly where the head of the free list ends. */
  predicate Adjoins(s: HeapState, p1: int) {
    s.first > -1 && At(s.w, s.first / 4) + s.first == p1
  }

  /**
   * MyHeapFree on the pointer p (an offset to the word after the header):
   * fatal on a pointer outside the arena or unaligned, or a header that is
   * too small, not a multiple of 4 or runs past the arena. A block that
   * starts where the head of the free list ends grows the head; any other
   * block is pushed on the front of the list.
   */
  function FreeSpec(s: HeapState, p: int): (r: Effect)
    requires AllU32(s.w)
    ensures r.status.Failed? ==> CollectorFault(r.status.fault)
    ensures |r.state.w| == |s.w| && AllU32(r.state.w) && r.state.stats == s.stats
    ensures r.status == Ok ==> 0 <= p < 4 * |s.w| && p % 4 == 0
  {
    var heap := 4 * |s.w|;
    if p < 0 || p >= heap || p % 4 != 0 then Effect(Failed(BadPointer), s)
    else
      var p1 := p - 4;
      var raw := At(s.w, p1 / 4);
      var bs := AsInt32(raw);
      if bs < MINBLOCKSIZE || p1 + bs > heap || bs % 4 != 0 then Effect(Failed(InvalidBlock), s)
      else if Adjoins(s, p1) then
        Effect(Ok, s.(w := Put(s.w, s.first / 4, U32(At(s.w, s.first / 4) + raw))))
      else
        Effect(Ok, HeapState(Put(Put(s.w, p1 / 4 + 1, U32(s.first)), p1 / 4 + 2, FREELISTBITPATTERN), p1, s.stats))
  }

  /** A free that succeeds either grows the head in place or makes the block the new head linked to the old one. */
  lemma FreeMeaning(s: HeapState, p: int)
    requires AllU32(s.w) && -MARKBIT <= s.first < MARKBIT
    ensures var Effect(st, r) := FreeSpec(s, p);
            var p1 := p - 4;
            (st == Ok <==> 4 <= p < 4 * |s.w| && p % 4 == 0 && MINBLOCKSIZE <= s.w[p1 / 4] < MARKBIT &&
                           p1 + s.w[p1 / 4] <= 4 * |s.w| && s.w[p1 / 4] % 4 == 0) &&
            (st == Ok && Adjoins(s, p1) ==>
               r.first == s.first && r.w == Put(s.w, s.first / 4, U32(At(s.w, s.first / 4) + s.w[p1 / 4]))) &&
            (st == Ok && !Adjoins(s, p1) ==>
               r.first == p1 && NextOf(r.w, p1) == s.first && r.w[p1 / 4 + 2] == FREELISTBITPATTERN &&
               r.w[p1 / 4] == s.w[p1 / 4])
  {
    var p1 := p - 4;
    if 0 <= p < 4 * |s.w| && p % 4 == 0 && p < 4 {
      assert At(s.w, p1 / 4) == 0;
    }
    var Effect(st, r) := FreeSpec(s, p);
    if st == Ok && !Adjoins(s, p1) {
      Int32RoundTrip(s.first);
      assert r.w[p1 / 4 + 1] == U32(s.first);
    }
  }
}

// The collector's functions on values: isProbablePointer, mark and sweep.
module Collector {
  import opened HeapWords
  import opened FreeList

  /**
   * isProbablePointer: p is word aligned, at least 4 and at most 12 bytes
   * short of the end, and the header before it holds a plausible size: a
   * multiple of 4 from MINBLOCKSIZE up to MAXBLOCKSIZE and the arena size.
   */
  function IsProbablePointer(w: seq<int>, p: int): (b: bool)
    ensures b ==> p % 4 == 0 && 4 <= p && p / 4 - 1 < |w|
    ensures b ==> MINBLOCKSIZE <= w[p / 4 - 1] < MARKBIT && w[p / 4 - 1] % 4 == 0 && w[p / 4 - 1] <= 4 * |w|
  {
    if p % 4 != 0 || p < 4 || p > 4 * |w| - MINBLOCKSIZE then false
    else
      var blockSize := At(w, p / 4 - 1);
      !(blockSize > MAXBLOCKSIZE || blockSize < MINBLOCKSIZE || blockSize > 4 * |w| || blockSize % 4 != 0)
  }

  /** A pointer mark may be called on: its header word lies in the arena. */
  predicate MarkTarget(n: int, p: int) {
    p % 4 == 0 && 4 <= p <= 4 * n
  }

  // ---- mark bits only accumulate --------------------------------------------

  /** The number of words without the mark bit; every marking step lowers it. */
  ghost function Unmarked(w: seq<int>): nat
    decreases |w|
  {
    if w == [] then 0 else Unmarked(w[..|w| - 1]) + (if w[|w| - 1] < MARKBIT then 1 else 0)
  }

  /** w2 is w1 with the mark bit added to some words that lacked it. */
  ghost predicate Gains(w1: seq<int>, w2: seq<int>) {
    |w2| == |w1| && forall k :: 0 <= k < |w1| ==> w2[k] == w1[k] || (w1[k] < MARKBIT && w2[k] == w1[k] + MARKBIT)
  }

  lemma GainsTrans(a: seq<int>, b: seq<int>, c: seq<int>)
    requires AllU32(a) && Gains(a, b) && Gains(b, c)
    ensures Gains(a, c)
  {
  }

  lemma {:induction false} GainsCount(w1: seq<int>, w2: seq<int>)
    requires Gains(w1, w2)
    ensures Unmarked(w2) <= Unmarked(w1)
    decreases |w1|
  {
    if w1 != [] {
      var n := |w1| - 1;
      assert Gains(w1[..n], w2[..n]);
      GainsCount(w1[..n], w2[..n]);
      assert Unmarked(w1) == Unmarked(w1[..n]) + (if w1[n] < MARKBIT then 1 else 0);
      assert Unmarked(w2) == Unmarked(w2[..n]) + (if w2[n] < MARKBIT then 1 else 0);
      assert w2[n] == w1[n] || (w1[n] < MARKBIT && w2[n] == w1[n] + MARKBIT);
    } else {
      assert w2 == [];
    }
  }

  lemma {:induction false} MarkOneCount(w: seq<int>, k: int)
    requires 0 <= k < |w| && 0 <= w[k] < MARKBIT
    ensures Unmarked(w[k := w[k] + MARKBIT]) == Unmarked(w) - 1
    decreases |w|
  {
    var n := |w| - 1;
    var w' := w[k := w[k] + MARKBIT];
    assert Unmarked(w) == Unmarked(w[..n]) + (if w[n] < MARKBIT then 1 else 0);
    assert Unmarked(w') == Unmarked(w'[..n]) + (if w'[n] < MARKBIT then 1 else 0);
    if k == n {
      assert w'[..n] == w[..n];
      assert w'[n] >= MARKBIT && w[n] < MARKBIT;
    } else {
      assert w'[..n] == w[..n][k := w[k] + MARKBIT];
      MarkOneCount(w[..n], k);
    }
  }

  // ---- mark -------------------------------------------------------------------

  /**
   * mark on the block whose data starts at p: a block already marked is left
   * alone; otherwise its header gets the mark bit, and each of the
   * (header - 4) / 4 words after the header (an unsigned computation) that
   * is a probable pointer is marked in turn.
   */
  ghost function MarkSpec(w: seq<int>, p: int): (r: seq<int>)
    requires AllU32(w) && MarkTarget(|w|, p)
    ensures AllU32(r) && Gains(w, r) && Unmarked(r) <= Unmarked(w)
    ensures r[p / 4 - 1] >= MARKBIT
    decreases Unmarked(w), 0, 0
  {
    if w[p / 4 - 1] >= MARKBIT then w
    else MarkFrom(WithMark(w, p / 4 - 1), p / 4, 0, ScanLength(w[p / 4 - 1]))
  }

  /** The header word k with its mark bit set: one unmarked word fewer. */
  ghost function WithMark(w: seq<int>, k: int): (r: seq<int>)
    requires AllU32(w) && 0 <= k < |w| && w[k] < MARKBIT
    ensures r == w[k := w[k] + MARKBIT]
    ensures AllU32(r) && Gains(w, r) && Unmarked(r) == Unmarked(w) - 1
  {
    MarkOneCount(w, k);
    w[k := w[k] + MARKBIT]
  }

  /** The number of words mark scans in a block with header h: (h - 4) / 4, computed unsigned. */
  function ScanLength(h: int): (n: nat)
    ensures 0 <= h - 4 < TWO32 ==> n == (h - 4) / 4
    ensures 0 <= h < 4 ==> n == (h - 4 + TWO32) / 4
  {
    U32(h - 4) / 4
  }

  /** The scan loop of mark: words base + i .. base + n - 1. */
  ghost function MarkFrom(w: seq<int>, base: int, i: nat, n: nat): (r: seq<int>)
    requires AllU32(w)
    ensures AllU32(r) && Gains(w, r) && Unmarked(r) <= Unmarked(w)
    decreases Unmarked(w), 1, n - i
  {
    if i >= n then w
    else
      var v := At(w, base + i);
      var w1 := if IsProbablePointer(w, v) then MarkSpec(w, v) else w;
      var r := MarkFrom(w1, base, i + 1, n);
      GainsTrans(w, w1, r);
      r
  }

  /** One step of the scan: the word at base + i is marked through if it is a probable pointer. */
  lemma MarkFromStep(w: seq<int>, base: int, i: nat, n: nat)
    requires AllU32(w) && i < n
    ensures var v := At(w, base + i);
            MarkFrom(w, base, i, n) == MarkFrom(if IsProbablePointer(w, v) then MarkSpec(w, v) else w, base, i + 1, n)
  {
  }

  /** A marked header is never a plausible size, so a pointer to a marked block is not probable. */
  lemma MarkedNotProbable(w: seq<int>, p: int)
    requires 4 <= p && p / 4 - 1 < |w| && w[p / 4 - 1] >= MARKBIT
    ensures !IsProbablePointer(w, p)
  {
  }

  /** Gaining mark bits never makes a pointer probable. */
  lemma NotProbableStable(w1: seq<int>, w2: seq<int>, p: int)
    requires AllU32(w1) && Gains(w1, w2) && !IsProbablePointer(w1, p)
    ensures !IsProbablePointer(w2, p)
  {
    if p % 4 == 0 && 4 <= p && p <= 4 * |w1| - MINBLOCKSIZE {
      var k := p / 4 - 1;
      assert 0 <= k < |w1|;
      assert w2[k] == w1[k] || w2[k] >= MARKBIT;
    }
  }

  /** No word with index in [lo, hi) is a probable pointer. */
  ghost predicate NoProbableIn(r: seq<int>, lo: int, hi: int) {
    forall k :: lo <= k < hi ==> !IsProbablePointer(r, At(r, k))
  }

  /**
   * After the scan from word base + i, no scanned word points at an
   * unmarked plausible block: each probable pointer met was marked.
   */
  lemma {:induction false} MarkFromClosure(w: seq<int>, base: int, i: nat, n: nat)
    requires AllU32(w) && 4 * |w| < MARKBIT
    ensures NoProbableIn(MarkFrom(w, base, i, n), base + i, base + n)
    decreases Unmarked(w), 1, n - i
  {
    if i < n {
      var v := At(w, base + i);
      var w1 := if IsProbablePointer(w, v) then MarkSpec(w, v) else w;
      MarkFromClosure(w1, base, i + 1, n);
      var r := MarkFrom(w1, base, i + 1, n);
      assert r == MarkFrom(w, base, i, n);
      ScannedWordStaysCovered(w, w1, r, base + i);
      NoProbableExtend(r, base + i, base + n);
    }
  }

  lemma NoProbableExtend(r: seq<int>, lo: int, hi: int)
    requires !IsProbablePointer(r, At(r, lo)) && NoProbableIn(r, lo + 1, hi)
    ensures NoProbableIn(r, lo, hi)
  {
  }

  /** The word scanned at index k is not a probable pointer once the rest of the scan is done. */
  lemma ScannedWordStaysCovered(w: seq<int>, w1: seq<int>, r: seq<int>, k: int)
    requires AllU32(w) && 4 * |w| < MARKBIT && Gains(w, r) && Gains(w1, r)
    requires w1 == if IsProbablePointer(w, At(w, k)) then MarkSpec(w, At(w, k)) else w
    ensures !IsProbablePointer(r, At(r, k))
  {
    var v := At(w, k);
    var u := At(r, k);
    if 0 <= k < |w| && u != v {
      assert r[k] == w[k] + MARKBIT;
    } else if IsProbablePointer(w, v) {
      assert w1[v / 4 - 1] >= MARKBIT;
      assert r[v / 4 - 1] == w1[v / 4 - 1];
      MarkedNotProbable(r, v);
    } else {
      NotProbableStable(w, r, v);
    }
  }

  /**
   * mark sets the block's mark bit, and afterwards none of the words it
   * scanned is a probable pointer to an unmarked block; on a block already
   * marked it changes nothing.
   */
  lemma MarkClosure(w: seq<int>, p: int)
    requires AllU32(w) && 4 * |w| < MARKBIT && MarkTarget(|w|, p)
    ensures MarkSpec(w, p)[p / 4 - 1] >= MARKBIT
    ensures w[p / 4 - 1] >= MARKBIT ==> MarkSpec(w, p) == w
    ensures w[p / 4 - 1] < MARKBIT ==> NoProbableIn(MarkSpec(w, p), p / 4, p / 4 + ScanLength(w[p / 4 - 1]))
  {
    if w[p / 4 - 1] < MARKBIT {
      MarkFromClosure(WithMark(w, p / 4 - 1), p / 4, 0, ScanLength(w[p / 4 - 1]));
    }
  }

  /** The roots marked unconditionally: the output descriptor and the loaded classes. */
  ghost function MarkObjects(w: seq<int>, objects: seq<int>): (r: seq<int>)
    requires AllU32(w) && forall o :: o in objects ==> MarkTarget(|w|, o)
    ensures AllU32(r) && Gains(w, r)
    decreases |objects|
  {
    if objects == [] then w
    else
      var w1 := MarkSpec(w, objects[0]);
      var r := MarkObjects(w1, objects[1..]);
      GainsTrans(w, w1, r);
      r
  }

  /** The interpreter-stack values, each marked only if it is a probable pointer. */
  ghost function MarkStack(w: seq<int>, values: seq<int>): (r: seq<int>)
    requires AllU32(w)
    ensures AllU32(r) && Gains(w, r)
    decreases |values|
  {
    if values == [] then w
    else
      var w1 := if IsProbablePointer(w, values[0]) then MarkSpec(w, values[0]) else w;
      var r := MarkStack(w1, values[1..]);
      GainsTrans(w, w1, r);
      r
  }

  /** After the stack has been marked, no stack value is a probable pointer to an unmarked block. */
  lemma {:induction false} MarkStackCovers(w: seq<int>, values: seq<int>)
    requires AllU32(w) && 4 * |w| < MARKBIT
    ensures forall k :: 0 <= k < |values| ==> !IsProbablePointer(MarkStack(w, values), values[k])
    decreases |values|
  {
    if values != [] {
      var v := values[0];
      var w1 := if IsProbablePointer(w, v) then MarkSpec(w, v) else w;
      MarkStackCovers(w1, values[1..]);
      var r := MarkStack(w1, values[1..]);
      assert r == MarkStack(w, values);
      if IsProbablePointer(w, v) {
        MarkedNotProbable(r, v);
      } else {
        NotProbableStable(w, r, v);
      }
      assert forall k :: 1 <= k < |values| ==> values[k] == values[1..][k - 1];
    }
  }

  // ---- sweep ------------------------------------------------------------------

  /**
   * One block of the sweep at byte offset `it`: an unmarked block is counted
   * as garbage unless it carries the pattern, and is handed to MyHeapFree; a
   * marked block has its mark bit cleared.
   */
  function SweepStep(s: HeapState, it: int): (r: Effect)
    requires AllU32(s.w)
    ensures |r.state.w| == |s.w| && AllU32(r.state.w) && KeepsAllocStats(s.stats, r.state.stats)
    ensures r.status.Failed? ==> CollectorFault(r.status.fault)
  {
    var h := At(s.w, it / 4);
    if h < MARKBIT then
      var s1 := if At(s.w, it / 4 + 2) != FREELISTBITPATTERN
                then s.(stats := s.stats.(bytesRecovered := s.stats.bytesRecovered + h,
                                          blocksRecovered := s.stats.blocksRecovered + 1))
                else s;
      FreeSpec(s1, it + 4)
    else Effect(Ok, s.(w := Put(s.w, it / 4, h - MARKBIT)))
  }

  /**
   * The sweep loop from byte offset `it`. After each block the walk moves on
   * by the block's size with the mark bit masked, read after the block was
   * handled. A zero size, on which the source never finishes, and a size
   * that is not a multiple of 4, which would make it read a misaligned
   * header, stop the walk.
   */
  ghost function SweepFrom(s: HeapState, it: int): (r: Effect)
    requires AllU32(s.w) && it >= 0
    ensures |r.state.w| == |s.w| && AllU32(r.state.w) && KeepsAllocStats(s.stats, r.state.stats)
    ensures r.status.Failed? ==> CollectorFault(r.status.fault)
    decreases 4 * |s.w| - it
  {
    if it >= 4 * |s.w| then Effect(Ok, s)
    else
      var step := SweepStep(s, it);
      if step.status != Ok then step
      else
        var sz := MaskedSize(At(step.state.w, it / 4));
        if sz == 0 then Effect(Failed(Unending), step.state)
        else if sz % 4 != 0 then Effect(Failed(Misaligned), step.state)
        else SweepFrom(step.state, it + sz)
  }

  /** A walk whose first block is swept without a fault goes on from the size of that block. */
  lemma SweepFromStep(s: HeapState, it: int)
    requires AllU32(s.w) && 0 <= it < 4 * |s.w| && SweepStep(s, it).status == Ok
    ensures var t := SweepStep(s, it).state;
            var sz := MaskedSize(At(t.w, it / 4));
            SweepFrom(s, it) == if sz == 0 then Effect(Failed(Unending), t)
                                else if sz % 4 != 0 then Effect(Failed(Misaligned), t)
                                else SweepFrom(t, it + sz)
  {
  }

  /** sweep: the free list is rebuilt from scratch by the walk from offset 0. */
  ghost function Sweep(s: HeapState): (r: Effect)
    requires AllU32(s.w)
    ensures |r.state.w| == |s.w| && AllU32(r.state.w) && KeepsAllocStats(s.stats, r.state.stats)
    ensures r.status.Failed? ==> CollectorFault(r.status.fault)
  {
    SweepFrom(s.(first := -1), 0)
  }

  /**
   * Walking block by block from a reaches b exactly, and every header met
   * is a positive size without the mark bit.
   */
  ghost predicate Tiles(w: seq<int>, a: int, b: int)
    decreases b - a
  {
    a == b || (0 <= a < b && 0 < At(w, a / 4) < MARKBIT && Tiles(w, a + At(w, a / 4), b))
  }

  lemma {:induction false} TilesTrans(w: seq<int>, a: int, b: int, c: int)
    requires Tiles(w, a, b) && Tiles(w, b, c)
    ensures Tiles(w, a, c)
    decreases b - a
  {
    if a != b {
      TilesTrans(w, a + At(w, a / 4), b, c);
    }
  }

  /** A walk only reads headers below its end, so stores at or beyond the end keep it. */
  lemma {:induction false} TilesFrame(w1: seq<int>, w2: seq<int>, a: int, b: int)
    requires Tiles(w1, a, b) && |w1| == |w2|
    requires forall k :: 0 <= k < |w1| && 4 * k < b ==> w2[k] == w1[k]
    ensures Tiles(w2, a, b)
    decreases b - a
  {
    if a != b {
      assert At(w2, a / 4) == At(w1, a / 4);
      TilesFrame(w1, w2, a + At(w1, a / 4), b);
    }
  }

  /** The sweep's loop invariant: the walk so far is unmarked, and the list head, if any, is a header on it. */
  ghost predicate SweepInv(s: HeapState, it: int) {
    (s.first == -1 && Tiles(s.w, 0, it)) ||
    (0 <= s.first < it && s.first % 4 == 0 && Tiles(s.w, 0, s.first) && Tiles(s.w, s.first, it))
  }

  /** Freeing the unmarked block at `it` keeps the invariant one block further on. */
  lemma SweepFreeKeepsInv(s: HeapState, it: int)
    requires AllU32(s.w) && 4 * |s.w| < MARKBIT && 0 <= it < 4 * |s.w| && it % 4 == 0 && SweepInv(s, it)
    requires s.w[it / 4] < MARKBIT && SweepStep(s, it).status == Ok
    ensures var s2 := SweepStep(s, it).state;
            var sz := MaskedSize(At(s2.w, it / 4));
            sz == s.w[it / 4] && sz > 0 && sz % 4 == 0 && SweepInv(s2, it + sz)
  {
    var s2 := SweepStep(s, it).state;
    if Adjoins(s, it) {
      SweepMergeKeepsInv(s, it, s2);
    } else {
      SweepPrependKeepsInv(s, it, s2);
    }
  }

  /** A freed block right behind the list head grows the head, which then reaches past the block. */
  lemma SweepMergeKeepsInv(s: HeapState, it: int, s2: HeapState)
    requires AllU32(s.w) && 4 * |s.w| < MARKBIT && 0 <= it < 4 * |s.w| && it % 4 == 0 && SweepInv(s, it)
    requires s.w[it / 4] < MARKBIT && SweepStep(s, it) == Effect(Ok, s2) && Adjoins(s, it)
    ensures var sz := MaskedSize(At(s2.w, it / 4));
            sz == s.w[it / 4] && sz > 0 && sz % 4 == 0 && SweepInv(s2, it + sz)
  {
    var bs := s.w[it / 4];
    var it' := it + bs;
    var hf := At(s.w, s.first / 4);
    assert s.first / 4 != it / 4;
    assert s2.w == Put(s.w, s.first / 4, U32(hf + bs));
    TilesFrame(s.w, s2.w, 0, s.first);
    assert Tiles(s2.w, it', it');
    assert Tiles(s2.w, s.first, it');
  }

  /** Any other freed block becomes the list head, so the walk before it is still unmarked. */
  lemma SweepPrependKeepsInv(s: HeapState, it: int, s2: HeapState)
    requires AllU32(s.w) && 4 * |s.w| < MARKBIT && 0 <= it < 4 * |s.w| && it % 4 == 0 && SweepInv(s, it)
    requires s.w[it / 4] < MARKBIT && SweepStep(s, it) == Effect(Ok, s2) && !Adjoins(s, it)
    ensures var sz := MaskedSize(At(s2.w, it / 4));
            sz == s.w[it / 4] && sz > 0 && sz % 4 == 0 && SweepInv(s2, it + sz)
  {
    var bs := s.w[it / 4];
    var it' := it + bs;
    if s.first >= 0 {
      TilesTrans(s.w, 0, s.first, it);
    }
    assert s2.first == it;
    TilesFrame(s.w, s2.w, 0, it);
    assert Tiles(s2.w, it', it');
    assert Tiles(s2.w, it, it');
  }

  /** Clearing the mark of the block at `it` keeps the invariant one block further on. */
  lemma SweepClearKeepsInv(s: HeapState, it: int)
    requires AllU32(s.w) && 4 * |s.w| < MARKBIT && 0 <= it < 4 * |s.w| && it % 4 == 0 && SweepInv(s, it)
    requires s.w[it / 4] >= MARKBIT
    ensures var s2 := SweepStep(s, it).state;
            var sz := MaskedSize(At(s2.w, it / 4));
            s2.w[it / 4] < MARKBIT && (sz > 0 && sz % 4 == 0 ==> SweepInv(s2, it + sz))
  {
    var s2 := SweepStep(s, it).state;
    var sz := MaskedSize(At(s2.w, it / 4));
    if sz > 0 && sz % 4 == 0 {
      var it' := it + sz;
      assert Tiles(s2.w, it', it');
      assert Tiles(s2.w, it, it');
      if s.first >= 0 {
        TilesFrame(s.w, s2.w, 0, s.first);
        TilesFrame(s.w, s2.w, s.first, it);
        TilesTrans(s2.w, s.first, it, it');
      } else {
        TilesFrame(s.w, s2.w, 0, it);
        TilesTrans(s2.w, 0, it, it');
      }
    }
  }

  lemma {:induction false} SweepFromTiles(s: HeapState, it: int)
    requires AllU32(s.w) && 4 * |s.w| < MARKBIT && it >= 0 && it % 4 == 0 && SweepInv(s, it)
    ensures SweepFrom(s, it).status == Ok ==> exists e :: e >= 4 * |s.w| && Tiles(SweepFrom(s, it).state.w, 0, e)
    decreases 4 * |s.w| - it
  {
    if it >= 4 * |s.w| {
      if s.first >= 0 {
        TilesTrans(s.w, 0, s.first, it);
      }
      return;
    }
    var step := SweepStep(s, it);
    if step.status == Ok {
      var sz := MaskedSize(At(step.state.w, it / 4));
      if s.w[it / 4] < MARKBIT {
        SweepFreeKeepsInv(s, it);
      } else {
        SweepClearKeepsInv(s, it);
      }
      if sz != 0 && sz % 4 == 0 {
        SweepFromTiles(step.state, it + sz);
      }
    }
  }

  /**
   * After a sweep that finishes, the walk from offset 0 over the new headers
   * reaches the end of the arena and meets no header with the mark bit.
   */
  lemma SweepClearsMarks(s: HeapState)
    requires AllU32(s.w) && 4 * |s.w| < MARKBIT
    ensures Sweep(s).status == Ok ==> exists e :: e >= 4 * |s.w| && Tiles(Sweep(s).state.w, 0, e)
  {
    SweepFromTiles(s.(first := -1), 0);
  }

  /**
   * gc: count the collection, mark the unconditional roots, then the stack
   * values that are probable pointers, then sweep.
   */
  ghost function GcSpec(s: HeapState, objects: seq<int>, stack: seq<int>): (r: Effect)
    requires AllU32(s.w) && forall o :: o in objects ==> MarkTarget(|s.w|, o)
    ensures |r.state.w| == |s.w| && AllU32(r.state.w)
    ensures KeepsAllocStats(s.stats.(gcs := s.stats.gcs + 1), r.state.stats)
    ensures r.status.Failed? ==> CollectorFault(r.status.fault)
  {
    var marked := MarkStack(MarkObjects(s.w, objects), stack);
    Sweep(HeapState(marked, s.first, s.stats.(gcs := s.stats.gcs + 1)))
  }
}
