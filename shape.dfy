// The shape of a well-formed heap, and its preservation by free, by the
// collector and by the allocator's carving step.
//
// A well-formed arena is cut into blocks that follow each other from the
// first word to the last. The shape is stated in word indexes: B lists the
// first word of each block in ascending order followed by the arena's
// length in words; each block is at least MINBLOCKSIZE bytes (three words)
// long, and its header holds its size in bytes without the mark bit. The
// free list is the sequence L of distinct blocks reached from `first`
// through the link words, the last one holding -1; every block on it
// carries the pattern. Being a finite sequence of distinct blocks, the list
// has no cycle, and blocks of a partition never overlap.

module HeapShape {
  import opened HeapWords
  import opened FreeList
  import opened Collector

  /** The raw word that a link of -1 is stored as. */
  const NOLINK: int := TWO32 - 1

  /**
   * B lists the boundaries of a cutting of the words [0, n) into blocks: 0,
   * then the end of each block in ascending order, the last being n.
   * Boundaries at least three words apart; block i runs from word B[i] up
   * to word B[i + 1].
   */
  predicate Partition(B: seq<int>, n: int) {
    |B| >= 1 && B[0] == 0 && B[|B| - 1] == n &&
    (forall i, j :: 0 <= i < j < |B| ==> B[i] + 3 <= B[j])
  }

  /** Every block from index `from` on holds its size in bytes, unmarked, in its header. */
  predicate Headers(w: seq<int>, B: seq<int>, from: nat) {
    forall i, j :: from <= i < |B| && j == i + 1 && j < |B| ==> At(w, B[i]) == 4 * (B[j] - B[i])
  }

  /** The same with the mark bit masked off: the headers as mark leaves them. */
  predicate MaskedHeaders(w: seq<int>, B: seq<int>, from: nat) {
    forall i, j :: from <= i < |B| && j == i + 1 && j < |B| ==> At(w, B[i]) % MARKBIT == 4 * (B[j] - B[i])
  }

  /** Word x starts a block of B. */
  predicate IsBlock(B: seq<int>, x: int) {
    x in B && x != B[|B| - 1]
  }

  /**
   * L is the free list that starts at byte offset `first`: distinct blocks
   * of B, each carrying the pattern and linking to the next, the last one
   * holding -1.
   */
  predicate ListAs(w: seq<int>, first: int, L: seq<int>, B: seq<int>)
    requires |B| >= 1
  {
    first == (if |L| == 0 then -1 else 4 * L[0]) &&
    (forall j :: 0 <= j < |L| ==> IsBlock(B, L[j]) && At(w, L[j] + 2) == FREELISTBITPATTERN) &&
    (forall j, k :: 0 <= j < |L| && k == j + 1 && k < |L| ==> At(w, L[j] + 1) == 4 * L[k]) &&
    (|L| > 0 ==> At(w, L[|L| - 1] + 1) == NOLINK) &&
    (forall j, k :: 0 <= j < k < |L| ==> L[j] != L[k])
  }

  /** The heap has block boundaries B and free list L. */
  ghost predicate Shape(s: HeapState, B: seq<int>, L: seq<int>) {
    WordsOk(s) && Partition(B, |s.w|) && Headers(s.w, B, 0) && ListAs(s.w, s.first, L, B)
  }

  ghost predicate WellFormed(s: HeapState) {
    exists B, L :: Shape(s, B, L)
  }

  // ---- partitions -------------------------------------------------------------

  /** B without its element at index i. */
  function Remove(B: seq<int>, i: int): (r: seq<int>)
    requires 0 <= i < |B|
    ensures |r| == |B| - 1
    ensures forall x :: 0 <= x < i ==> r[x] == B[x]
    ensures forall x :: i <= x < |r| ==> r[x] == B[x + 1]
  {
    B[..i] + B[i + 1..]
  }

  /** B with v inserted at index i. */
  function Insert(B: seq<int>, i: int, v: int): (r: seq<int>)
    requires 0 <= i <= |B|
    ensures |r| == |B| + 1 && r[i] == v
    ensures forall x :: 0 <= x < i ==> r[x] == B[x]
    ensures forall x :: i < x < |r| ==> r[x] == B[x - 1]
  {
    B[..i] + [v] + B[i..]
  }

  /** Every boundary lies in [0, n]; a block's link and pattern words are in the arena. */
  lemma Within(B: seq<int>, n: int, i: int)
    requires Partition(B, n) && 0 <= i < |B|
    ensures 0 <= B[i] <= n
    ensures i + 1 < |B| ==> B[i] + 3 <= B[i + 1] && B[i] + 2 < n
  {
    var last := |B| - 1;
    if i > 0 {
      assert B[0] + 3 <= B[i];
    }
    if i < last {
      assert B[i] + 3 <= B[last];
      assert B[i] + 3 <= B[i + 1];
    }
  }

  /** Word k lies strictly inside block i: past its header and before its end. */
  predicate Inside(B: seq<int>, i: int, k: int)
    requires 0 <= i < |B| - 1
  {
    B[i] < k < B[i + 1]
  }

  /** A word inside a block is in the arena, is no boundary, and lies inside no other block. */
  lemma InsideOnly(B: seq<int>, n: int, i: int, k: int)
    requires Partition(B, n) && 0 <= i < |B| - 1 && Inside(B, i, k)
    ensures 0 <= k < n
    ensures forall m :: 0 <= m < |B| ==> B[m] != k
    ensures forall m :: 0 <= m < |B| - 1 && m != i ==> !Inside(B, m, k)
  {
    Within(B, n, i);
    Within(B, n, i + 1);
    forall m | 0 <= m < |B|
      ensures B[m] != k && (m < |B| - 1 && m != i ==> !Inside(B, m, k))
    {
      if m < i {
        assert B[m] + 3 <= B[i];
        if m + 1 < i {
          assert B[m + 1] + 3 <= B[i];
        }
      } else if m > i + 1 {
        assert B[i + 1] + 3 <= B[m];
      }
    }
  }

  /** The link and pattern words of a block lie inside it. */
  lemma LinkInside(B: seq<int>, n: int, i: int)
    requires Partition(B, n) && 0 <= i < |B| - 1
    ensures Inside(B, i, B[i] + 1) && Inside(B, i, B[i] + 2)
  {
    assert B[i] + 3 <= B[i + 1];
  }

  /** Boundaries are distinct, so a boundary has one index. */
  lemma IndexUnique(B: seq<int>, n: int, a: int, b: int)
    requires Partition(B, n) && 0 <= a < |B| && 0 <= b < |B| && B[a] == B[b]
    ensures a == b
  {
  }

  /** The index of a boundary in B. */
  ghost function IndexOf(B: seq<int>, x: int): (i: int)
    requires x in B
    ensures 0 <= i < |B| && B[i] == x
  {
    var i :| 0 <= i < |B| && B[i] == x; i
  }

  /** The index of a block start: never the last boundary. */
  lemma BlockIndex(B: seq<int>, n: int, x: int)
    requires Partition(B, n) && IsBlock(B, x)
    ensures IndexOf(B, x) < |B| - 1
  {
  }

  // ---- framing ----------------------------------------------------------------

  /** Headers only read the boundary words. */
  lemma HeadersFrame(w1: seq<int>, w2: seq<int>, B: seq<int>)
    requires Headers(w1, B, 0)
    requires forall m :: 0 <= m < |B| ==> At(w2, B[m]) == At(w1, B[m])
    ensures Headers(w2, B, 0)
  {
  }

  /** A list only reads the link and pattern words of its blocks. */
  lemma ListFrame(w1: seq<int>, w2: seq<int>, first: int, L: seq<int>, B: seq<int>)
    requires |B| >= 1 && ListAs(w1, first, L, B)
    requires forall j :: 0 <= j < |L| ==> At(w2, L[j] + 1) == At(w1, L[j] + 1) && At(w2, L[j] + 2) == At(w1, L[j] + 2)
    ensures ListAs(w2, first, L, B)
  {
  }

  /**
   * A store into a word inside block i leaves every boundary word and the
   * link and pattern words of every other block alone.
   */
  lemma PutInside(w: seq<int>, B: seq<int>, i: int, k: int, v: int)
    requires Partition(B, |w|) && 0 <= i < |B| - 1 && Inside(B, i, k)
    ensures var w2 := Put(w, k, v);
            (forall m :: 0 <= m < |B| ==> At(w2, B[m]) == At(w, B[m])) &&
            (forall m :: 0 <= m < |B| - 1 && m != i ==> At(w2, B[m] + 1) == At(w, B[m] + 1) && At(w2, B[m] + 2) == At(w, B[m] + 2))
  {
    InsideOnly(B, |w|, i, k);
    forall m | 0 <= m < |B| - 1 && m != i
      ensures B[m] + 1 != k && B[m] + 2 != k
    {
      LinkInside(B, |w|, m);
    }
  }

  /** A store into the header of block m leaves every link and pattern word and every other boundary word alone. */
  lemma PutBoundary(w: seq<int>, B: seq<int>, m: int, v: int)
    requires Partition(B, |w|) && 0 <= m < |B|
    ensures var w2 := Put(w, B[m], v);
            (forall x :: 0 <= x < |B| && x != m ==> At(w2, B[x]) == At(w, B[x])) &&
            (forall x :: 0 <= x < |B| - 1 ==> At(w2, B[x] + 1) == At(w, B[x] + 1) && At(w2, B[x] + 2) == At(w, B[x] + 2))
  {
    forall x | 0 <= x < |B| - 1
      ensures B[x] + 1 != B[m] && B[x] + 2 != B[m]
    {
      LinkInside(B, |w|, x);
      InsideOnly(B, |w|, x, B[x] + 1);
      InsideOnly(B, |w|, x, B[x] + 2);
    }
  }

  // ---- reading a well-formed heap ------------------------------------------------

  /** The list head is -1 or the byte offset of the first listed block, a signed 32-bit value. */
  lemma FirstInRange(s: HeapState, B: seq<int>, L: seq<int>)
    requires Shape(s, B, L)
    ensures -1 <= s.first < 4 * |s.w| && AsInt32(U32(s.first)) == s.first
    ensures |L| > 0 ==> s.first == 4 * L[0] && 0 <= L[0] && L[0] + 2 < |s.w|
  {
    if |L| > 0 {
      var i := IndexOf(B, L[0]);
      BlockIndex(B, |s.w|, L[0]);
      Within(B, |s.w|, i);
    }
    Int32RoundTrip(s.first);
  }

  /** The header of a block of a well-formed heap is its size in bytes. */
  lemma HeaderOf(s: HeapState, B: seq<int>, L: seq<int>, x: int)
    requires Shape(s, B, L) && IsBlock(B, x)
    ensures var i := IndexOf(B, x);
            i < |B| - 1 && 0 <= x && x + 3 <= B[i + 1] <= |s.w| && s.w[x] == 4 * (B[i + 1] - x)
  {
    var i := IndexOf(B, x);
    BlockIndex(B, |s.w|, x);
    Within(B, |s.w|, i);
    Within(B, |s.w|, i + 1);
    assert At(s.w, B[i]) == 4 * (B[i + 1] - B[i]);
  }

  /** The stored link of a listed block, read back as MyHeapFree and the search read it. */
  lemma LinkOf(s: HeapState, B: seq<int>, L: seq<int>, j: int)
    requires Shape(s, B, L) && 0 <= j < |L|
    ensures NextOf(s.w, 4 * L[j]) == if j + 1 < |L| then 4 * L[j + 1] else -1
  {
    var x := IndexOf(B, L[j]);
    BlockIndex(B, |s.w|, L[j]);
    Within(B, |s.w|, x);
    if j + 1 < |L| {
      var y := IndexOf(B, L[j + 1]);
      BlockIndex(B, |s.w|, L[j + 1]);
      Within(B, |s.w|, y);
      assert At(s.w, L[j] + 1) == 4 * L[j + 1];
    }
  }

  // ---- free -------------------------------------------------------------------

  /** MyHeapFree accepts every block of a well-formed heap: the pointer to the word after its header. */
  lemma FreeAccepts(s: HeapState, B: seq<int>, L: seq<int>, x: int)
    requires Shape(s, B, L) && IsBlock(B, x)
    ensures FreeSpec(s, 4 * x + 4).status == Ok
  {
    HeaderOf(s, B, L, x);
    FirstInRange(s, B, L);
    FreeMeaning(s, 4 * x + 4);
  }

  /** Consing a block keeps the entries blocks carrying the pattern. */
  lemma ConsBlocks(w: seq<int>, L: seq<int>, B: seq<int>, x: int)
    requires |B| >= 1 && IsBlock(B, x) && At(w, x + 2) == FREELISTBITPATTERN
    requires forall j :: 0 <= j < |L| ==> IsBlock(B, L[j]) && At(w, L[j] + 2) == FREELISTBITPATTERN
    ensures forall j :: 0 <= j < |[x] + L| ==> IsBlock(B, ([x] + L)[j]) && At(w, ([x] + L)[j] + 2) == FREELISTBITPATTERN
  {
    var L2 := [x] + L;
    forall j | 0 <= j < |L2|
      ensures IsBlock(B, L2[j]) && At(w, L2[j] + 2) == FREELISTBITPATTERN
    {
      if j > 0 {
        assert L2[j] == L[j - 1];
      }
    }
  }

  /** Consing a block that links to the old head keeps every entry linking to the next. */
  lemma ConsLinks(w: seq<int>, L: seq<int>, x: int)
    requires forall j, k :: 0 <= j < |L| && k == j + 1 && k < |L| ==> At(w, L[j] + 1) == 4 * L[k]
    requires |L| > 0 ==> At(w, x + 1) == 4 * L[0]
    ensures forall j, k :: 0 <= j < |[x] + L| && k == j + 1 && k < |[x] + L| ==> At(w, ([x] + L)[j] + 1) == 4 * ([x] + L)[k]
  {
    var L2 := [x] + L;
    forall j, k | 0 <= j < |L2| && k == j + 1 && k < |L2|
      ensures At(w, L2[j] + 1) == 4 * L2[k]
    {
      if j > 0 {
        assert L2[j] == L[j - 1] && L2[k] == L[j];
      }
    }
  }

  /** Consing a block that is not on the list keeps the entries distinct. */
  lemma ConsDistinct(L: seq<int>, x: int)
    requires x !in L && forall j, k :: 0 <= j < k < |L| ==> L[j] != L[k]
    ensures forall j, k :: 0 <= j < k < |[x] + L| ==> ([x] + L)[j] != ([x] + L)[k]
  {
    var L2 := [x] + L;
    forall j, k | 0 <= j < k < |L2|
      ensures L2[j] != L2[k]
    {
      assert L2[k] == L[k - 1];
      if j > 0 {
        assert L2[j] == L[j - 1];
      }
    }
  }

  /** A block off the list that carries the pattern and links to the head can be put in front of the list. */
  lemma ConsList(w: seq<int>, first: int, L: seq<int>, B: seq<int>, x: int)
    requires |B| >= 1 && ListAs(w, first, L, B) && IsBlock(B, x) && x !in L
    requires At(w, x + 2) == FREELISTBITPATTERN && At(w, x + 1) == (if |L| == 0 then NOLINK else 4 * L[0])
    ensures ListAs(w, 4 * x, [x] + L, B)
  {
    ConsBlocks(w, L, B, x);
    ConsLinks(w, L, x);
    ConsDistinct(L, x);
    var L2 := [x] + L;
    if |L| > 0 {
      assert L2[|L2| - 1] == L[|L| - 1];
    }
  }

  /** Storing a link and the pattern into block i: those two words change, and no boundary or other block's words. */
  lemma PutLinkWords(w: seq<int>, B: seq<int>, i: int, link: int)
    requires Partition(B, |w|) && 0 <= i < |B| - 1
    ensures var w2 := Put(Put(w, B[i] + 1, link), B[i] + 2, FREELISTBITPATTERN);
            At(w2, B[i] + 1) == link && At(w2, B[i] + 2) == FREELISTBITPATTERN &&
            (forall m :: 0 <= m < |B| ==> At(w2, B[m]) == At(w, B[m])) &&
            (forall m :: 0 <= m < |B| - 1 && m != i ==> At(w2, B[m] + 1) == At(w, B[m] + 1) && At(w2, B[m] + 2) == At(w, B[m] + 2))
  {
    var w1 := Put(w, B[i] + 1, link);
    LinkInside(B, |w|, i);
    Within(B, |w|, i);
    PutInside(w, B, i, B[i] + 1, link);
    PutInside(w1, B, i, B[i] + 2, FREELISTBITPATTERN);
  }

  /**
   * Storing `link` as the link of block i and the pattern after it makes
   * block i the head of a list one longer; the headers are untouched.
   */
  lemma PrependList(w: seq<int>, first: int, L: seq<int>, B: seq<int>, i: int, link: int)
    requires Partition(B, |w|) && 0 <= i < |B| - 1 && ListAs(w, first, L, B) && B[i] !in L
    requires link == (if |L| == 0 then NOLINK else 4 * L[0])
    ensures var w2 := Put(Put(w, B[i] + 1, link), B[i] + 2, FREELISTBITPATTERN);
            ListAs(w2, 4 * B[i], [B[i]] + L, B) &&
            forall m :: 0 <= m < |B| ==> At(w2, B[m]) == At(w, B[m])
  {
    var w2 := Put(Put(w, B[i] + 1, link), B[i] + 2, FREELISTBITPATTERN);
    PutLinkWords(w, B, i, link);
    forall j | 0 <= j < |L|
      ensures At(w2, L[j] + 1) == At(w, L[j] + 1) && At(w2, L[j] + 2) == At(w, L[j] + 2)
    {
      var m := IndexOf(B, L[j]);
      assert m != i && m < |B| - 1;
    }
    ListFrame(w, w2, first, L, B);
    ConsList(w2, first, L, B, B[i]);
  }

  /**
   * Freeing a block that is not on the list and does not start where the
   * head ends pushes it on the front of the list; the blocks stay as they were.
   */
  lemma FreePrependShape(s: HeapState, B: seq<int>, L: seq<int>, x: int)
    requires Shape(s, B, L) && IsBlock(B, x) && x !in L && !Adjoins(s, 4 * x)
    ensures Shape(FreeSpec(s, 4 * x + 4).state, B, [x] + L)
  {
    var i := IndexOf(B, x);
    HeaderOf(s, B, L, x);
    FirstInRange(s, B, L);
    FreeAccepts(s, B, L, x);
    var link := U32(s.first);
    assert link == (if |L| == 0 then NOLINK else 4 * L[0]);
    var w2 := Put(Put(s.w, x + 1, link), x + 2, FREELISTBITPATTERN);
    assert FreeSpec(s, 4 * x + 4).state == HeapState(w2, 4 * x, s.stats);
    PrependList(s.w, s.first, L, B, i, link);
    HeadersFrame(s.w, w2, B);
  }

  /** Growing the header of block m over block m + 1 removes boundary m + 1, and the headers match what is left. */
  lemma MergeHeaders(w: seq<int>, B: seq<int>, m: int)
    requires Partition(B, |w|) && 0 <= m && m + 2 < |B| && Headers(w, B, 0)
    ensures var w2 := Put(w, B[m], 4 * (B[m + 2] - B[m]));
            var B2 := Remove(B, m + 1);
            Partition(B2, |w|) && Headers(w2, B2, 0)
  {
    var i := m + 1;
    Within(B, |w|, m);
    var w2 := Put(w, B[m], 4 * (B[m + 2] - B[m]));
    PutBoundary(w, B, m, 4 * (B[m + 2] - B[m]));
    var B2 := Remove(B, i);
    forall x, y | 0 <= x < |B2| && y == x + 1 && y < |B2|
      ensures At(w2, B2[x]) == 4 * (B2[y] - B2[x])
    {
      if x < m {
        assert At(w, B[x]) == 4 * (B[x + 1] - B[x]);
      } else if x > m {
        assert At(w, B[x + 1]) == 4 * (B[x + 2] - B[x + 1]);
      }
    }
    forall x, y | 0 <= x < y < |B2|
      ensures B2[x] + 3 <= B2[y]
    {
      if x < i && y >= i {
        assert B[x] + 3 <= B[y + 1];
      }
    }
  }

  /** The same store keeps a list that does not hold block m + 1 a list of the shorter boundary list. */
  lemma MergeList(w: seq<int>, first: int, L: seq<int>, B: seq<int>, m: int, v: int)
    requires Partition(B, |w|) && 0 <= m && m + 2 < |B|
    requires ListAs(w, first, L, B) && B[m + 1] !in L
    ensures ListAs(Put(w, B[m], v), first, L, Remove(B, m + 1))
  {
    var i := m + 1;
    var w2 := Put(w, B[m], v);
    PutBoundary(w, B, m, v);
    var B2 := Remove(B, i);
    forall j | 0 <= j < |L|
      ensures IsBlock(B2, L[j])
      ensures At(w2, L[j] + 1) == At(w, L[j] + 1) && At(w2, L[j] + 2) == At(w, L[j] + 2)
    {
      var x := IndexOf(B, L[j]);
      assert x != i && x < |B| - 1;
      if x < i {
        assert B2[x] == L[j];
      } else {
        assert B2[x - 1] == L[j];
      }
    }
    ListFrame(w, w2, first, L, B);
  }

  /** A free that grows the list head removes the boundary between the head and the freed block. */
  lemma FreeMergeShape(s: HeapState, B: seq<int>, L: seq<int>, x: int)
    requires Shape(s, B, L) && IsBlock(B, x) && x !in L && Adjoins(s, 4 * x)
    ensures IndexOf(B, x) > 0
    ensures Shape(FreeSpec(s, 4 * x + 4).state, Remove(B, IndexOf(B, x)), L)
  {
    var i := IndexOf(B, x);
    HeaderOf(s, B, L, x);
    FirstInRange(s, B, L);
    FreeAccepts(s, B, L, x);
    var m := IndexOf(B, L[0]);
    HeaderOf(s, B, L, L[0]);
    IndexUnique(B, |s.w|, m + 1, i);
    assert FreeSpec(s, 4 * x + 4).state == s.(w := Put(s.w, B[m], 4 * (B[m + 2] - B[m])));
    MergeHeaders(s.w, B, m);
    MergeList(s.w, s.first, L, B, m, 4 * (B[m + 2] - B[m]));
  }

  /**
   * MyHeapFree of any block of a well-formed heap that is not already free
   * succeeds and leaves the heap well formed: the block is either the new
   * head of the list or absorbed by the old head, whose list is unchanged.
   */
  lemma FreeKeepsShape(s: HeapState, B: seq<int>, L: seq<int>, x: int)
    requires Shape(s, B, L) && IsBlock(B, x) && x !in L
    ensures var Effect(st, t) := FreeSpec(s, 4 * x + 4);
            st == Ok &&
            ((!Adjoins(s, 4 * x) && t.first == 4 * x && Shape(t, B, [x] + L)) ||
             (Adjoins(s, 4 * x) && t.first == s.first && Shape(t, Remove(B, IndexOf(B, x)), L)))
  {
    FreeAccepts(s, B, L, x);
    if Adjoins(s, 4 * x) {
      FreeMergeShape(s, B, L, x);
    } else {
      FreePrependShape(s, B, L, x);
    }
  }

  /** The arena InitMyAlloc builds, one free block spanning it, is well formed. */
  lemma SingleBlockShape(s: HeapState)
    requires WordsOk(s) && |s.w| >= 3 && s.first == 0
    requires s.w[0] == 4 * |s.w| && s.w[1] == NOLINK && s.w[2] == FREELISTBITPATTERN
    ensures Shape(s, [0, |s.w|], [0])
  {
  }

  // ---- the search -------------------------------------------------------------

  /** The size a listed block's header holds, as the search reads it. */
  lemma ListedSize(s: HeapState, B: seq<int>, L: seq<int>, j: int)
    requires Shape(s, B, L) && 0 <= j < |L|
    ensures 0 <= L[j] && L[j] + 2 < |s.w| && (4 * L[j]) / 4 == L[j]
    ensures var bs := s.w[L[j]]; AsInt32(bs) == bs && MINBLOCKSIZE <= bs && bs % 4 == 0
  {
    HeaderOf(s, B, L, L[j]);
  }

  /** Every listed block from j up to k is too small for the request. */
  predicate TooSmall(w: seq<int>, L: seq<int>, j: int, k: int, need: int) {
    forall m :: j <= m < k && 0 <= m < |L| ==> At(w, L[m]) < need
  }

  /** The hit the search reports is the k-th listed block, reached from the block before it. */
  predicate HitIs(w: seq<int>, L: seq<int>, k: int, r: SearchResult) {
    0 <= k < |L| && r == Hit(4 * L[k], if k == 0 then -1 else 4 * L[k - 1], At(w, L[k]))
  }

  /** What the search reads of a list: every entry a plausible header in the arena, linking to the next. */
  predicate Searchable(w: seq<int>, L: seq<int>) {
    (forall j :: 0 <= j < |L| ==>
       0 <= L[j] && L[j] + 2 < |w| && MINBLOCKSIZE <= w[L[j]] < MARKBIT && w[L[j]] % 4 == 0) &&
    (forall j, k :: 0 <= j < |L| && k == j + 1 && k < |L| ==> NextOf(w, 4 * L[j]) == 4 * L[k]) &&
    (|L| > 0 ==> NextOf(w, 4 * L[|L| - 1]) == -1)
  }

  lemma ShapeSearchable(s: HeapState, B: seq<int>, L: seq<int>)
    requires Shape(s, B, L)
    ensures Searchable(s.w, L)
  {
    forall j | 0 <= j < |L|
      ensures 0 <= L[j] && L[j] + 2 < |s.w| && MINBLOCKSIZE <= s.w[L[j]] < MARKBIT && s.w[L[j]] % 4 == 0
      ensures j + 1 < |L| ==> NextOf(s.w, 4 * L[j]) == 4 * L[j + 1]
      ensures j + 1 == |L| ==> NextOf(s.w, 4 * L[j]) == -1
    {
      ListedSize(s, B, L, j);
      LinkOf(s, B, L, j);
    }
  }

  /**
   * The search from the j-th listed block, with enough fuel for the rest of
   * the list, ends in a miss or a hit and never in a fault. A hit is the
   * first listed block from j on that is large enough, reached from the
   * block before it; a miss means no listed block from j on is large enough.
   */
  lemma {:induction false} SearchOnList(w: seq<int>, L: seq<int>, j: int, need: int, fuel: nat)
    requires Searchable(w, L) && 0 <= j <= |L| && fuel > |L| - j
    ensures var r := Search(w, if j == |L| then -1 else 4 * L[j], if j == 0 then -1 else 4 * L[j - 1], need, fuel).result;
            (r.Hit? || r.Miss?) &&
            (r.Miss? ==> TooSmall(w, L, j, |L|, need)) &&
            (r.Hit? ==> exists k :: j <= k && HitIs(w, L, k, r) && TooSmall(w, L, j, k, need))
    decreases |L| - j
  {
    if j < |L| {
      var offset := 4 * L[j];
      var prev := if j == 0 then -1 else 4 * L[j - 1];
      var bs := w[L[j]];
      assert offset / 4 == L[j];
      Int32RoundTrip(bs);
      if bs - need < 0 {
        SearchSkips(w, offset, prev, need, fuel);
        SearchOnList(w, L, j + 1, need, fuel - 1);
        var r := Search(w, offset, prev, need, fuel).result;
        if r.Hit? {
          var k :| j + 1 <= k && HitIs(w, L, k, r) && TooSmall(w, L, j + 1, k, need);
          assert TooSmall(w, L, j, k, need);
        }
      } else {
        assert Search(w, offset, prev, need, fuel).result == Hit(offset, prev, bs);
        assert HitIs(w, L, j, Hit(offset, prev, bs)) && TooSmall(w, L, j, j, need);
      }
    }
  }

  /** Distinct values below n are at most n many. */
  lemma {:induction false} Pigeonhole(L: seq<int>, n: nat)
    requires forall j :: 0 <= j < |L| ==> 0 <= L[j] < n
    requires forall j, k :: 0 <= j < k < |L| ==> L[j] != L[k]
    ensures |L| <= n
    decreases n
  {
    if |L| > 0 {
      assert 0 <= L[0] < n;
      if p :| 0 <= p < |L| && L[p] == n - 1 {
        var rest := L[..p] + L[p + 1..];
        assert forall j :: 0 <= j < |rest| ==> rest[j] == if j < p then L[j] else L[j + 1];
        forall j, k | 0 <= j < k < |rest|
          ensures rest[j] != rest[k]
        {
          var j' := if j < p then j else j + 1;
          var k' := if k < p then k else k + 1;
          assert rest[j] == L[j'] && rest[k] == L[k'];
        }
        Pigeonhole(rest, n - 1);
      } else {
        Pigeonhole(L, n - 1);
      }
    }
  }

  /** The free list of a well-formed heap is no longer than the arena has words, so the search's fuel covers it. */
  lemma ListShort(s: HeapState, B: seq<int>, L: seq<int>)
    requires Shape(s, B, L)
    ensures |L| <= |s.w|
  {
    ShapeSearchable(s, B, L);
    Pigeonhole(L, |s.w|);
  }

  // ---- carving a block ----------------------------------------------------------

  /** The word that holds the link reaching the carved block at word x: the head or the previous block's link word. */
  predicate LinkBefore(s: HeapState, x: int, pw: int, bs: int) {
    (pw < 0 && s.first == 4 * x) ||
    (pw >= 0 && pw % 4 == 0 && 0 <= pw / 4 + 1 < |s.w| && !(x <= pw / 4 + 1 < x + bs / 4) &&
     AsInt32(s.w[pw / 4 + 1]) == 4 * x)
  }

  /** Shrink on word indexes: the header of x becomes `need` and the link that reached x reaches `need` bytes further. */
  lemma ShrinkWords(s: HeapState, x: int, pw: int, bs: int, need: int)
    requires WordsOk(s) && 0 <= x < |s.w| && 0 <= need && 4 * x + need < 4 * |s.w| && bs >= MINBLOCKSIZE
    requires LinkBefore(s, x, pw, bs)
    ensures var r := Shrink(s, 4 * x, pw, need);
            r.w[x] == U32(need) &&
            (pw < 0 ==> r.first == 4 * x + need) && (pw >= 0 ==> r.first == s.first && r.w[pw / 4 + 1] == 4 * x + need) &&
            (forall k :: 0 <= k < |s.w| && k != x && (pw < 0 || k != pw / 4 + 1) ==> r.w[k] == s.w[k])
  {
    assert (4 * x) / 4 == x;
    if pw >= 0 {
      var w1 := Put(s.w, x, U32(need));
      assert At(w1, pw / 4 + 1) == s.w[pw / 4 + 1];
    }
  }

  /** PlaceRest on word indexes: the block at y gets `diff`, the link of x and the pattern. */
  lemma PlaceRestWords(s: HeapState, x: int, y: int, diff: int)
    requires AllU32(s.w) && 0 <= x && x + 1 < |s.w| && x + 1 != y && 0 <= y && y + 2 < |s.w| && IsU32(diff)
    ensures var r := PlaceRest(s, 4 * x, 4 * y, diff);
            r.w[y] == diff && r.w[y + 1] == s.w[x + 1] && r.w[y + 2] == FREELISTBITPATTERN && r.first == s.first &&
            (forall k :: 0 <= k < |s.w| && !(y <= k < y + 3) ==> r.w[k] == s.w[k])
  {
    assert (4 * x) / 4 == x && (4 * y) / 4 == y;
    var w3 := Put(s.w, y, U32(diff));
    assert At(w3, x + 1) == s.w[x + 1];
  }

  /** The words Carve changes on a split, before the rest of the handed-out block is cleared. */
  lemma SplitCarve(s: HeapState, x: int, y: int, e: int, pw: int, bs: int, need: int)
    requires WordsOk(s) && 0 <= x && need == 4 * (y - x) && need >= 16 && bs == 4 * (e - x)
    requires y + 3 <= e <= |s.w| && LinkBefore(s, x, pw, bs)
    ensures var c := Carve(s, 4 * x, pw, bs, need);
            c.w[x] == need && c.w[y] == bs - need && c.w[y + 1] == s.w[x + 1] && c.w[y + 2] == FREELISTBITPATTERN &&
            (pw < 0 ==> c.first == 4 * y) && (pw >= 0 ==> c.first == s.first && c.w[pw / 4 + 1] == 4 * y)
  {
    var at := 4 * x;
    assert at / 4 == x && at + need == 4 * y;
    ShrinkWords(s, x, pw, bs, need);
    var sh := Shrink(s, at, pw, need);
    PlaceRestWords(sh, x, y, bs - need);
    CarveWords(s, at, pw, bs, need);
  }

  /** Carve on a split changes no word outside the two blocks' first three words and the link that reached x. */
  lemma SplitCarveFrame(s: HeapState, x: int, y: int, e: int, pw: int, bs: int, need: int)
    requires WordsOk(s) && 0 <= x && need == 4 * (y - x) && need >= 16 && bs == 4 * (e - x)
    requires y + 3 <= e <= |s.w| && LinkBefore(s, x, pw, bs)
    ensures var c := Carve(s, 4 * x, pw, bs, need);
            forall k :: 0 <= k < |s.w| && !(x <= k < x + 3) && !(y <= k < y + 3) && (pw < 0 || k != pw / 4 + 1) ==>
              c.w[k] == s.w[k]
  {
    var at := 4 * x;
    assert at / 4 == x && at + need == 4 * y;
    ShrinkWords(s, x, pw, bs, need);
    var sh := Shrink(s, at, pw, need);
    PlaceRestWords(sh, x, y, bs - need);
    CarveWords(s, at, pw, bs, need);
  }

  /**
   * The words a split changes: the handed-out block at word x shrinks to
   * `need` bytes, ending at word y, with everything after its header
   * cleared; the rest, up to word e, becomes a block at y with the old link
   * and the pattern, and the link that reached x now reaches y.
   */
  lemma SplitWords(s: HeapState, x: int, y: int, e: int, pw: int, bs: int, need: int)
    requires WordsOk(s) && 0 <= x && need == 4 * (y - x) && need >= 16 && bs == 4 * (e - x)
    requires y + 3 <= e <= |s.w| && LinkBefore(s, x, pw, bs)
    ensures var t := CarveZeroed(s, 4 * x, pw, bs, need);
            t.w[x] == need && t.w[y] == bs - need && t.w[y + 1] == s.w[x + 1] && t.w[y + 2] == FREELISTBITPATTERN &&
            (pw < 0 ==> t.first == 4 * y) && (pw >= 0 ==> t.first == s.first && t.w[pw / 4 + 1] == 4 * y) &&
            (forall k :: x < k < y ==> t.w[k] == 0)
  {
    assert (4 * x) / 4 == x && (4 * x + need) / 4 == y && CarvedSize(bs, need) == need;
    SplitCarve(s, x, y, e, pw, bs, need);
  }

  /** No other word changes. */
  lemma SplitFrame(s: HeapState, x: int, y: int, e: int, pw: int, bs: int, need: int)
    requires WordsOk(s) && 0 <= x && need == 4 * (y - x) && need >= 16 && bs == 4 * (e - x)
    requires y + 3 <= e <= |s.w| && LinkBefore(s, x, pw, bs)
    ensures var t := CarveZeroed(s, 4 * x, pw, bs, need);
            forall k :: 0 <= k < |s.w| && !(x <= k < y + 3) && (pw < 0 || k != pw / 4 + 1) ==> t.w[k] == s.w[k]
  {
    assert (4 * x) / 4 == x && (4 * x + need) / 4 == y && CarvedSize(bs, need) == need;
    SplitCarveFrame(s, x, y, e, pw, bs, need);
  }

  /** Carve clears the link and pattern words of the block at `at` in what the unlink or split left. */
  lemma CarveWords(s: HeapState, at: int, pw: int, bs: int, need: int)
    requires AllU32(s.w) && 0 <= at && at / 4 + 2 < |s.w|
    ensures var cut := if bs - need < MINBLOCKSIZE then Unlink(s, at, pw) else Split(s, at, pw, bs, need);
            var c := Carve(s, at, pw, bs, need);
            c.first == cut.first &&
            forall k :: 0 <= k < |s.w| ==> c.w[k] == if k == at / 4 + 1 || k == at / 4 + 2 then 0 else cut.w[k]
  {
  }

  /**
   * The words an unlink changes: the link that reached the block at word x
   * now holds x's own link, and everything after x's header is cleared; its
   * header keeps the whole size. No other word changes.
   */
  lemma UnlinkWords(s: HeapState, x: int, pw: int, bs: int, need: int)
    requires WordsOk(s) && 0 <= x && bs % 4 == 0 && bs >= MINBLOCKSIZE && bs - need < MINBLOCKSIZE
    requires x + bs / 4 <= |s.w| && LinkBefore(s, x, pw, bs)
    ensures var t := CarveZeroed(s, 4 * x, pw, bs, need);
            (pw < 0 ==> t.first == AsInt32(s.w[x + 1])) && (pw >= 0 ==> t.first == s.first && t.w[pw / 4 + 1] == s.w[x + 1]) &&
            (forall k :: x < k < x + bs / 4 ==> t.w[k] == 0) &&
            (forall k :: 0 <= k < |s.w| && !(x < k < x + bs / 4) && (pw < 0 || k != pw / 4 + 1) ==> t.w[k] == s.w[k])
  {
    var at := 4 * x;
    assert at / 4 == x && (at + bs) / 4 == x + bs / 4;
    var u := Unlink(s, at, pw);
    if pw >= 0 {
      assert u.w == Put(s.w, pw / 4 + 1, s.w[x + 1]);
    } else {
      assert u.w == s.w && u.first == AsInt32(s.w[x + 1]);
    }
    var c := Carve(s, at, pw, bs, need);
    assert c.w == Put(Put(u.w, x + 1, 0), x + 2, 0) && c.first == u.first;
  }

  /** A new boundary strictly inside block i, at least three words from both ends, splits it in two. */
  lemma SplitHeaders(w: seq<int>, t: seq<int>, B: seq<int>, i: int, y: int)
    requires Partition(B, |w|) && |t| == |w| && Headers(w, B, 0) && 0 <= i < |B| - 1
    requires B[i] + 3 <= y && y + 3 <= B[i + 1]
    requires At(t, B[i]) == 4 * (y - B[i]) && At(t, y) == 4 * (B[i + 1] - y)
    requires forall m :: 0 <= m < |B| && m != i ==> At(t, B[m]) == At(w, B[m])
    ensures Partition(Insert(B, i + 1, y), |w|) && Headers(t, Insert(B, i + 1, y), 0)
  {
    var B2 := Insert(B, i + 1, y);
    forall a, b | 0 <= a < b < |B2|
      ensures B2[a] + 3 <= B2[b]
    {
      if a < i + 1 && b > i + 1 {
        assert B[a] + 3 <= y || a == i;
        assert B2[b] == B[b - 1];
        if b - 1 > i + 1 {
          assert B[i + 1] <= B[b - 1];
        }
      } else if a < i + 1 && b == i + 1 {
        if a < i {
          assert B[a] + 3 <= B[i];
        }
      } else if a == i + 1 {
        if b - 1 > i + 1 {
          assert B[i + 1] + 3 <= B[b - 1];
        }
      }
    }
    forall a, b | 0 <= a < |B2| && b == a + 1 && b < |B2|
      ensures At(t, B2[a]) == 4 * (B2[b] - B2[a])
    {
      if a < i {
        assert At(w, B[a]) == 4 * (B[a + 1] - B[a]);
      } else if a > i + 1 {
        assert At(w, B[a - 1]) == 4 * (B[a] - B[a - 1]);
      }
    }
  }

  /** The boundaries other than block i's start lie outside block i and are no link word of another block. */
  lemma BoundaryOutside(B: seq<int>, n: int, i: int, o: int)
    requires Partition(B, n) && 0 <= i < |B| - 1 && 0 <= o < |B| - 1
    ensures forall m :: 0 <= m < |B| && m != i ==> !(B[i] <= B[m] < B[i + 1]) && B[m] != B[o] + 1
  {
    LinkInside(B, n, o);
    InsideOnly(B, n, o, B[o] + 1);
    forall m | 0 <= m < |B| && m != i
      ensures !(B[i] <= B[m] < B[i + 1])
    {
      if m > i + 1 {
        assert B[i + 1] + 3 <= B[m];
      }
    }
  }

  /** The link and pattern words of another block lie outside block i. */
  lemma OtherBlockWords(B: seq<int>, n: int, i: int, m: int)
    requires Partition(B, n) && 0 <= i < |B| - 1 && 0 <= m < |B| - 1 && m != i
    ensures !(B[i] <= B[m] + 1 < B[i + 1]) && !(B[i] <= B[m] + 2 < B[i + 1])
  {
    LinkInside(B, n, m);
    InsideOnly(B, n, m, B[m] + 1);
    InsideOnly(B, n, m, B[m] + 2);
  }

  /** A block's pattern word is no block's link word, and distinct blocks have distinct link words. */
  lemma LinkWordsDiffer(B: seq<int>, n: int, m: int, o: int)
    requires Partition(B, n) && 0 <= m < |B| - 1 && 0 <= o < |B| - 1
    ensures B[m] + 2 != B[o] + 1 && (m != o ==> B[m] + 1 != B[o] + 1)
  {
    LinkInside(B, n, m);
    LinkInside(B, n, o);
    if m != o {
      InsideOnly(B, n, m, B[m] + 2);
    }
  }

  /** After a split of block i at y, every listed block is a block of the new boundaries, y among them. */
  lemma SplitBlocks(w: seq<int>, t: seq<int>, L: seq<int>, L2: seq<int>, B: seq<int>, B2: seq<int>, k: int, i: int, y: int)
    requires Partition(B, |w|) && 0 <= k < |L| && 0 <= i < |B| - 1 && L[k] == B[i]
    requires B[i] + 3 <= y && y + 3 <= B[i + 1] && L2 == L[k := y] && B2 == Insert(B, i + 1, y)
    requires forall j :: 0 <= j < |L| ==> IsBlock(B, L[j]) && At(w, L[j] + 2) == FREELISTBITPATTERN
    requires forall j, k' :: 0 <= j < k' < |L| ==> L[j] != L[k']
    requires At(t, y + 2) == FREELISTBITPATTERN
    requires forall j :: 0 <= j < |L| && j != k ==> At(t, L[j] + 2) == At(w, L[j] + 2)
    ensures forall j :: 0 <= j < |L2| ==> IsBlock(B2, L2[j]) && At(t, L2[j] + 2) == FREELISTBITPATTERN
  {
    Within(B, |w|, i + 1);
    forall j | 0 <= j < |L2|
      ensures IsBlock(B2, L2[j]) && At(t, L2[j] + 2) == FREELISTBITPATTERN
    {
      if j == k {
        assert B2[i + 1] == y;
      } else {
        var m := IndexOf(B, L[j]);
        BlockIndex(B, |w|, L[j]);
        if m <= i {
          assert B2[m] == L[j];
        } else {
          assert B2[m + 1] == L[j];
        }
      }
    }
  }

  /** After the split the listed blocks still link to the next, the link before y reaching y and y holding x's old link. */
  lemma SplitLinks(w: seq<int>, t: seq<int>, L: seq<int>, L2: seq<int>, k: int, y: int)
    requires 0 <= k < |L| && L2 == L[k := y]
    requires forall j, k' :: 0 <= j < |L| && k' == j + 1 && k' < |L| ==> At(w, L[j] + 1) == 4 * L[k']
    requires (|L| > 0 ==> At(w, L[|L| - 1] + 1) == NOLINK)
    requires At(t, y + 1) == At(w, L[k] + 1)
    requires k > 0 ==> At(t, L[k - 1] + 1) == 4 * y
    requires forall j :: 0 <= j < |L| && j != k && j + 1 != k ==> At(t, L[j] + 1) == At(w, L[j] + 1)
    ensures forall j, k' :: 0 <= j < |L2| && k' == j + 1 && k' < |L2| ==> At(t, L2[j] + 1) == 4 * L2[k']
    ensures At(t, L2[|L2| - 1] + 1) == NOLINK
  {
    forall j, k' | 0 <= j < |L2| && k' == j + 1 && k' < |L2|
      ensures At(t, L2[j] + 1) == 4 * L2[k']
    {
      if j != k && k' != k {
        assert At(w, L[j] + 1) == 4 * L[k'];
      } else if j == k {
        assert At(w, L[j] + 1) == 4 * L[k'];
      }
    }
  }

  /** The split point is no boundary, so the split list stays free of repeats. */
  lemma SplitDistinct(L: seq<int>, L2: seq<int>, B: seq<int>, n: int, k: int, i: int, y: int)
    requires Partition(B, n) && 0 <= k < |L| && 0 <= i < |B| - 1 && B[i] < y < B[i + 1] && L2 == L[k := y]
    requires forall j :: 0 <= j < |L| ==> L[j] in B
    requires forall j, k' :: 0 <= j < k' < |L| ==> L[j] != L[k']
    ensures forall j, k' :: 0 <= j < k' < |L2| ==> L2[j] != L2[k']
  {
    InsideOnly(B, n, i, y);
  }

  /**
   * Splitting listed block k, at boundary i, at word y: the rest block
   * takes its place on the list and the block list gains boundary y.
   */
  lemma SplitList(w: seq<int>, t: seq<int>, first: int, tfirst: int, L: seq<int>, L2: seq<int>, B: seq<int>, B2: seq<int>, k: int, i: int, y: int)
    requires Partition(B, |w|) && ListAs(w, first, L, B)
    requires 0 <= k < |L| && 0 <= i < |B| - 1 && L[k] == B[i] && B[i] + 3 <= y && y + 3 <= B[i + 1]
    requires L2 == L[k := y] && B2 == Insert(B, i + 1, y)
    requires At(t, y + 1) == At(w, B[i] + 1) && At(t, y + 2) == FREELISTBITPATTERN
    requires tfirst == (if k == 0 then 4 * y else first)
    requires k > 0 ==> At(t, L[k - 1] + 1) == 4 * y
    requires forall j :: 0 <= j < |L| && j != k ==> At(t, L[j] + 2) == At(w, L[j] + 2)
    requires forall j :: 0 <= j < |L| && j != k && j + 1 != k ==> At(t, L[j] + 1) == At(w, L[j] + 1)
    ensures ListAs(t, tfirst, L2, B2)
  {
    SplitBlocks(w, t, L, L2, B, B2, k, i, y);
    SplitLinks(w, t, L, L2, k, y);
    SplitDistinct(L, L2, B, |w|, k, i, y);
  }

  /** A change confined to block i and the link word of listed block k - 1 keeps the other entries' words. */
  lemma SplitEntriesKept(w: seq<int>, t: seq<int>, L: seq<int>, B: seq<int>, k: int, i: int)
    requires Partition(B, |w|) && |t| == |w| && 0 <= k < |L| && 0 <= i < |B| - 1 && L[k] == B[i]
    requires forall j :: 0 <= j < |L| ==> IsBlock(B, L[j])
    requires forall j, k' :: 0 <= j < k' < |L| ==> L[j] != L[k']
    requires forall q :: 0 <= q < |w| && !(B[i] <= q < B[i + 1]) && (k == 0 || q != L[k - 1] + 1) ==> t[q] == w[q]
    ensures forall j :: 0 <= j < |L| && j != k ==> At(t, L[j] + 2) == At(w, L[j] + 2)
    ensures forall j :: 0 <= j < |L| && j != k && j + 1 != k ==> At(t, L[j] + 1) == At(w, L[j] + 1)
  {
    forall j | 0 <= j < |L| && j != k
      ensures At(t, L[j] + 2) == At(w, L[j] + 2)
      ensures j + 1 != k ==> At(t, L[j] + 1) == At(w, L[j] + 1)
    {
      var m := IndexOf(B, L[j]);
      BlockIndex(B, |w|, L[j]);
      OtherBlockWords(B, |w|, i, m);
      Within(B, |w|, m);
      if k > 0 {
        var o := IndexOf(B, L[k - 1]);
        BlockIndex(B, |w|, L[k - 1]);
        LinkWordsDiffer(B, |w|, m, o);
      }
    }
  }

  /** The word that reaches listed block k: the head for the first, the previous block's link word otherwise. */
  lemma ListedLinkBefore(s: HeapState, B: seq<int>, L: seq<int>, k: int)
    requires Shape(s, B, L) && 0 <= k < |L|
    ensures LinkBefore(s, L[k], if k == 0 then -1 else 4 * L[k - 1], s.w[L[k]])
  {
    var x := L[k];
    var i := IndexOf(B, x);
    HeaderOf(s, B, L, x);
    FirstInRange(s, B, L);
    if k > 0 {
      var m := IndexOf(B, L[k - 1]);
      BlockIndex(B, |s.w|, L[k - 1]);
      OtherBlockWords(B, |s.w|, i, m);
      Within(B, |s.w|, m);
      assert At(s.w, L[k - 1] + 1) == 4 * L[k];
      assert (4 * L[k - 1]) / 4 == L[k - 1];
      Int32RoundTrip(4 * x);
    }
  }

  /**
   * Splitting listed block k, which is block i, at word y, stated on words:
   * the two new headers, the rest block's link and pattern, the head or the
   * previous link reaching y, and nothing else changed outside block i.
   */
  lemma SplitShapeWords(w: seq<int>, t: seq<int>, first: int, tfirst: int, B: seq<int>, L: seq<int>, k: int, i: int, y: int)
    requires Partition(B, |w|) && Headers(w, B, 0) && ListAs(w, first, L, B) && |t| == |w|
    requires 0 <= k < |L| && 0 <= i < |B| - 1 && L[k] == B[i] && B[i] + 3 <= y && y + 3 <= B[i + 1]
    requires At(t, B[i]) == 4 * (y - B[i]) && At(t, y) == 4 * (B[i + 1] - y)
    requires At(t, y + 1) == At(w, B[i] + 1) && At(t, y + 2) == FREELISTBITPATTERN
    requires tfirst == (if k == 0 then 4 * y else first)
    requires k > 0 ==> At(t, L[k - 1] + 1) == 4 * y
    requires forall q :: 0 <= q < |w| && !(B[i] <= q < B[i + 1]) && (k == 0 || q != L[k - 1] + 1) ==> t[q] == w[q]
    ensures Partition(Insert(B, i + 1, y), |w|) && Headers(t, Insert(B, i + 1, y), 0)
    ensures ListAs(t, tfirst, L[k := y], Insert(B, i + 1, y))
  {
    var o := if k == 0 then i else IndexOf(B, L[k - 1]);
    if k > 0 {
      BlockIndex(B, |w|, L[k - 1]);
    }
    BoundaryOutside(B, |w|, i, o);
    forall m | 0 <= m < |B| && m != i
      ensures At(t, B[m]) == At(w, B[m])
    {
      Within(B, |w|, m);
    }
    SplitHeaders(w, t, B, i, y);
    SplitEntriesKept(w, t, L, B, k, i);
    SplitList(w, t, first, tfirst, L, L[k := y], B, Insert(B, i + 1, y), k, i, y);
  }

  /**
   * The same on heap states, with the changed words as the carving step
   * leaves them: x = B[i] is listed block k, reached through the head or
   * the link word of block k - 1, and splits at y before its end e.
   */
  lemma SplitShape(s: HeapState, t: HeapState, B: seq<int>, L: seq<int>, k: int, i: int,
                   x: int, y: int, e: int, pw: int, bs: int, need: int)
    requires Shape(s, B, L) && AllU32(t.w) && |t.w| == |s.w|
    requires 0 <= k < |L| && 0 <= i < |B| - 1 && L[k] == x && B[i] == x && B[i + 1] == e
    requires need == 4 * (y - x) && need >= 16 && bs == 4 * (e - x) && y + 3 <= e
    requires pw == (if k == 0 then -1 else 4 * L[k - 1])
    requires t.w[x] == need && t.w[y] == bs - need && t.w[y + 1] == s.w[x + 1] && t.w[y + 2] == FREELISTBITPATTERN
    requires (pw < 0 ==> t.first == 4 * y) && (pw >= 0 ==> t.first == s.first && t.w[pw / 4 + 1] == 4 * y)
    requires forall q :: 0 <= q < |s.w| && !(x <= q < y + 3) && (pw < 0 || q != pw / 4 + 1) ==> t.w[q] == s.w[q]
    ensures Shape(t, Insert(B, i + 1, y), L[k := y])
  {
    Within(B, |s.w|, i + 1);
    if k > 0 {
      var o := IndexOf(B, L[k - 1]);
      BlockIndex(B, |s.w|, L[k - 1]);
      Within(B, |s.w|, o);
      assert pw / 4 + 1 == L[k - 1] + 1;
    }
    SplitShapeWords(s.w, t.w, s.first, t.first, B, L, k, i, y);
  }

  /**
   * A hit on listed block k, which is block i, large enough to split: the
   * handed-out block keeps its start, ends at word y with `need` bytes in
   * its header and zeros after it, and the rest block from y takes its
   * place on the list.
   */
  lemma CarveSplitShape(s: HeapState, B: seq<int>, L: seq<int>, k: int, i: int, need: int, y: int, pw: int, bs: int)
    requires Shape(s, B, L) && 0 <= k < |L| && 0 <= i < |B| - 1 && B[i] == L[k]
    requires pw == (if k == 0 then -1 else 4 * L[k - 1]) && bs == At(s.w, L[k])
    requires need == 4 * (y - L[k]) && need >= 16 && bs - need >= MINBLOCKSIZE
    ensures var t := CarveZeroed(s, 4 * L[k], pw, bs, need);
            Shape(t, Insert(B, i + 1, y), L[k := y]) && IsBlock(Insert(B, i + 1, y), L[k]) && L[k] !in L[k := y] &&
            y + 3 <= |t.w| && t.w[L[k]] == need && (forall q :: L[k] < q < y ==> t.w[q] == 0)
  {
    var x := L[k];
    HeaderOf(s, B, L, x);
    var e := B[i + 1];
    ListedLinkBefore(s, B, L, k);
    var t := CarveZeroed(s, 4 * x, pw, bs, need);
    SplitWords(s, x, y, e, pw, bs, need);
    SplitFrame(s, x, y, e, pw, bs, need);
    SplitShape(s, t, B, L, k, i, x, y, e, pw, bs, need);
    assert Insert(B, i + 1, y)[i] == x;
    InsideOnly(B, |s.w|, i, y);
  }

  /** Dropping entry k keeps the other entries blocks carrying the pattern. */
  lemma UnlinkBlocks(w: seq<int>, t: seq<int>, L: seq<int>, B: seq<int>, k: int)
    requires |B| >= 1 && 0 <= k < |L|
    requires forall j :: 0 <= j < |L| ==> IsBlock(B, L[j]) && At(w, L[j] + 2) == FREELISTBITPATTERN
    requires forall j :: 0 <= j < |L| && j != k ==> At(t, L[j] + 2) == At(w, L[j] + 2)
    ensures forall j :: 0 <= j < |Remove(L, k)| ==> IsBlock(B, Remove(L, k)[j]) && At(t, Remove(L, k)[j] + 2) == FREELISTBITPATTERN
  {
    var L2 := Remove(L, k);
    forall j | 0 <= j < |L2|
      ensures IsBlock(B, L2[j]) && At(t, L2[j] + 2) == FREELISTBITPATTERN
    {
      var j' := if j < k then j else j + 1;
      assert L2[j] == L[j'];
    }
  }

  /** Dropping entry k, whose predecessor's link now holds k's own link, keeps every entry linking to the next. */
  lemma UnlinkLinks(w: seq<int>, t: seq<int>, L: seq<int>, k: int)
    requires 0 <= k < |L|
    requires forall j, j2 :: 0 <= j < |L| && j2 == j + 1 && j2 < |L| ==> At(w, L[j] + 1) == 4 * L[j2]
    requires At(w, L[|L| - 1] + 1) == NOLINK
    requires k > 0 ==> At(t, L[k - 1] + 1) == At(w, L[k] + 1)
    requires forall j :: 0 <= j < |L| && j != k && j + 1 != k ==> At(t, L[j] + 1) == At(w, L[j] + 1)
    ensures forall j, j2 :: 0 <= j < |Remove(L, k)| && j2 == j + 1 && j2 < |Remove(L, k)| ==>
              At(t, Remove(L, k)[j] + 1) == 4 * Remove(L, k)[j2]
    ensures |Remove(L, k)| > 0 ==> At(t, Remove(L, k)[|L| - 2] + 1) == NOLINK
  {
    var L2 := Remove(L, k);
    forall j, j2 | 0 <= j < |L2| && j2 == j + 1 && j2 < |L2|
      ensures At(t, L2[j] + 1) == 4 * L2[j2]
    {
      if j + 1 < k {
        assert At(w, L[j] + 1) == 4 * L[j + 1];
      } else if j + 1 == k {
        assert At(w, L[k] + 1) == 4 * L[k + 1];
      } else {
        assert At(w, L[j + 1] + 1) == 4 * L[j + 2];
      }
    }
    if |L2| > 0 {
      if k == |L| - 1 {
        assert L2[|L2| - 1] == L[k - 1];
      } else {
        assert L2[|L2| - 1] == L[|L| - 1];
      }
    }
  }

  /** Dropping an entry keeps the list free of repeats. */
  lemma UnlinkDistinct(L: seq<int>, k: int)
    requires 0 <= k < |L| && forall j, j2 :: 0 <= j < j2 < |L| ==> L[j] != L[j2]
    ensures forall j, j2 :: 0 <= j < j2 < |Remove(L, k)| ==> Remove(L, k)[j] != Remove(L, k)[j2]
    ensures L[k] !in Remove(L, k)
  {
    var L2 := Remove(L, k);
    forall j, j2 | 0 <= j < j2 < |L2|
      ensures L2[j] != L2[j2]
    {
      var a := if j < k then j else j + 1;
      var b := if j2 < k then j2 else j2 + 1;
      assert L2[j] == L[a] && L2[j2] == L[b];
    }
    forall j | 0 <= j < |L2|
      ensures L2[j] != L[k]
    {
      var a := if j < k then j else j + 1;
      assert L2[j] == L[a];
    }
  }

  /** The list without entry k, whose predecessor's link now reaches its successor. */
  lemma UnlinkList(w: seq<int>, t: seq<int>, first: int, tfirst: int, L: seq<int>, B: seq<int>, k: int)
    requires |B| >= 1 && ListAs(w, first, L, B) && 0 <= k < |L|
    requires tfirst == (if k > 0 then first else if |L| == 1 then -1 else 4 * L[1])
    requires k > 0 ==> At(t, L[k - 1] + 1) == At(w, L[k] + 1)
    requires forall j :: 0 <= j < |L| && j != k ==> At(t, L[j] + 2) == At(w, L[j] + 2)
    requires forall j :: 0 <= j < |L| && j != k && j + 1 != k ==> At(t, L[j] + 1) == At(w, L[j] + 1)
    ensures ListAs(t, tfirst, Remove(L, k), B)
  {
    UnlinkBlocks(w, t, L, B, k);
    UnlinkLinks(w, t, L, k);
    UnlinkDistinct(L, k);
  }

  /** A change strictly inside block i and at most at one link word lw of a block keeps every header. */
  lemma InteriorKeepsHeaders(w: seq<int>, t: seq<int>, B: seq<int>, i: int, o: int, lw: int)
    requires Partition(B, |w|) && Headers(w, B, 0) && |t| == |w| && 0 <= i < |B| - 1 && 0 <= o < |B| - 1
    requires lw == -1 || lw == B[o] + 1
    requires forall q :: 0 <= q < |w| && !(B[i] < q < B[i + 1]) && q != lw ==> t[q] == w[q]
    ensures Headers(t, B, 0)
  {
    LinkInside(B, |w|, o);
    InsideOnly(B, |w|, o, B[o] + 1);
    BoundaryOutside(B, |w|, i, o);
    forall m | 0 <= m < |B|
      ensures At(t, B[m]) == At(w, B[m])
    {
      Within(B, |w|, m);
    }
    HeadersFrame(w, t, B);
  }

  /** The link word of the list head, read as a signed offset: the second entry, or -1 for a list of one. */
  lemma HeadLink(s: HeapState, B: seq<int>, L: seq<int>)
    requires Shape(s, B, L) && |L| > 0
    ensures 0 <= L[0] + 1 < |s.w| && AsInt32(s.w[L[0] + 1]) == if |L| == 1 then -1 else 4 * L[1]
  {
    LinkOf(s, B, L, 0);
    ListedSize(s, B, L, 0);
    assert (4 * L[0]) / 4 == L[0];
    if |L| > 1 {
      ListedSize(s, B, L, 1);
    }
  }

  /**
   * The same on heap states, with the changed words as the carving step
   * leaves them when the whole block x = B[i], listed block k up to word e,
   * is handed out.
   */
  lemma UnlinkShape(s: HeapState, t: HeapState, B: seq<int>, L: seq<int>, k: int, i: int, x: int, e: int, pw: int, bs: int)
    requires Shape(s, B, L) && AllU32(t.w) && |t.w| == |s.w|
    requires 0 <= k < |L| && 0 <= i < |B| - 1 && L[k] == x && B[i] == x && B[i + 1] == e && bs == 4 * (e - x)
    requires pw == (if k == 0 then -1 else 4 * L[k - 1])
    requires (pw < 0 ==> t.first == AsInt32(s.w[x + 1])) && (pw >= 0 ==> t.first == s.first && t.w[pw / 4 + 1] == s.w[x + 1])
    requires forall q :: 0 <= q < |s.w| && !(x < q < x + bs / 4) && (pw < 0 || q != pw / 4 + 1) ==> t.w[q] == s.w[q]
    ensures Shape(t, B, Remove(L, k))
  {
    var n := |s.w|;
    var o := if k == 0 then i else IndexOf(B, L[k - 1]);
    if k > 0 {
      BlockIndex(B, n, L[k - 1]);
      Within(B, n, o);
      assert pw / 4 + 1 == L[k - 1] + 1;
    } else {
      HeadLink(s, B, L);
    }
    InteriorKeepsHeaders(s.w, t.w, B, i, o, if k == 0 then -1 else L[k - 1] + 1);
    SplitEntriesKept(s.w, t.w, L, B, k, i);
    UnlinkList(s.w, t.w, s.first, t.first, L, B, k);
  }

  /**
   * A hit on listed block k, which is block i, too small to split: the
   * whole block is handed out with its header unchanged and zeros after
   * it, and it leaves the list; the blocks stay as they were.
   */
  lemma CarveUnlinkShape(s: HeapState, B: seq<int>, L: seq<int>, k: int, i: int, need: int, pw: int, bs: int)
    requires Shape(s, B, L) && 0 <= k < |L| && 0 <= i < |B| - 1 && B[i] == L[k]
    requires pw == (if k == 0 then -1 else 4 * L[k - 1]) && bs == At(s.w, L[k])
    requires 0 <= bs - need < MINBLOCKSIZE
    ensures var t := CarveZeroed(s, 4 * L[k], pw, bs, need);
            Shape(t, B, Remove(L, k)) && IsBlock(B, L[k]) && L[k] !in Remove(L, k) &&
            L[k] + bs / 4 <= |t.w| && t.w[L[k]] == bs && (forall q :: L[k] < q < L[k] + bs / 4 ==> t.w[q] == 0)
  {
    var x := L[k];
    HeaderOf(s, B, L, x);
    IndexUnique(B, |s.w|, IndexOf(B, x), i);
    var e := B[i + 1];
    assert bs == 4 * (e - x) && bs / 4 == e - x && bs % 4 == 0;
    ListedLinkBefore(s, B, L, k);
    var t := CarveZeroed(s, 4 * x, pw, bs, need);
    UnlinkWords(s, x, pw, bs, need);
    UnlinkShape(s, t, B, L, k, i, x, e, pw, bs);
    UnlinkDistinct(L, k);
  }

  // ---- the collector -----------------------------------------------------------

  /** Mark only adds mark bits, so the headers of a well-formed heap read back with the mark masked. */
  lemma GainsMasksHeaders(w1: seq<int>, w2: seq<int>, B: seq<int>)
    requires AllU32(w1) && 4 * |w1| < MARKBIT && Partition(B, |w1|) && Headers(w1, B, 0) && Gains(w1, w2)
    ensures MaskedHeaders(w2, B, 0)
  {
    forall i, j | 0 <= i < |B| && j == i + 1 && j < |B|
      ensures At(w2, B[i]) % MARKBIT == 4 * (B[j] - B[i])
    {
      Within(B, |w1|, i);
      Within(B, |w1|, j);
      assert At(w1, B[i]) == 4 * (B[j] - B[i]);
    }
  }

  /** Masked headers only read the boundary words. */
  lemma MaskedHeadersFrame(w1: seq<int>, w2: seq<int>, B: seq<int>, a: nat)
    requires MaskedHeaders(w1, B, a)
    requires forall m :: a <= m < |B| ==> At(w2, B[m]) == At(w1, B[m])
    ensures MaskedHeaders(w2, B, a)
  {
  }

  /** Headers and a list over boundaries up to c only read the words below c. */
  lemma PrefixKept(w: seq<int>, t: seq<int>, first: int, P: seq<int>, L: seq<int>, c: int)
    requires Partition(P, c) && Headers(w, P, 0) && ListAs(w, first, L, P) && |t| == |w|
    requires forall q :: 0 <= q < c ==> At(t, q) == At(w, q)
    ensures Headers(t, P, 0) && ListAs(t, first, L, P)
  {
    forall i, j | 0 <= i < |P| && j == i + 1 && j < |P|
      ensures At(t, P[i]) == 4 * (P[j] - P[i])
    {
      Within(P, c, i);
      assert At(w, P[i]) == 4 * (P[j] - P[i]);
    }
    forall j | 0 <= j < |L|
      ensures At(t, L[j] + 1) == At(w, L[j] + 1) && At(t, L[j] + 2) == At(w, L[j] + 2)
    {
      var m := IndexOf(P, L[j]);
      BlockIndex(P, c, L[j]);
      Within(P, c, m);
      Within(P, c, m + 1);
    }
    ListFrame(w, t, first, L, P);
  }

  /** A list over boundaries P ending at c is a list over P extended by a boundary past c. */
  lemma ListExtend(w: seq<int>, first: int, L: seq<int>, P: seq<int>, c: int, v: int)
    requires Partition(P, c) && ListAs(w, first, L, P) && c < v
    ensures ListAs(w, first, L, P + [v]) && c !in L
  {
    forall j | 0 <= j < |L|
      ensures IsBlock(P + [v], L[j]) && L[j] != c
    {
      var m := IndexOf(P, L[j]);
      Within(P, c, m);
      assert (P + [v])[m] == L[j];
    }
  }

  /** The block from c to v, whose header holds its size, joins the boundaries. */
  lemma ExtendPrefix(w: seq<int>, first: int, P: seq<int>, L: seq<int>, c: int, v: int)
    requires Partition(P, c) && Headers(w, P, 0) && ListAs(w, first, L, P)
    requires c + 3 <= v && At(w, c) == 4 * (v - c)
    ensures Partition(P + [v], v) && Headers(w, P + [v], 0) && ListAs(w, first, L, P + [v])
    ensures IsBlock(P + [v], c) && c !in L
  {
    var P2 := P + [v];
    forall i, j | 0 <= i < j < |P2|
      ensures P2[i] + 3 <= P2[j]
    {
      if j == |P| {
        Within(P, c, i);
      }
    }
    forall i, j | 0 <= i < |P2| && j == i + 1 && j < |P2|
      ensures At(w, P2[i]) == 4 * (P2[j] - P2[i])
    {
      if j < |P| {
        assert At(w, P[i]) == 4 * (P[j] - P[i]);
      }
    }
    ListExtend(w, first, L, P, c, v);
    assert P2[|P| - 1] == c;
  }

  /** Growing the header of the last block before c to reach v moves the last boundary from c to v. */
  lemma MergeTail(w: seq<int>, t: seq<int>, first: int, P: seq<int>, L: seq<int>, c: int, v: int)
    requires Partition(P, c) && Headers(w, P, 0) && ListAs(w, first, L, P) && |P| >= 2 && c < v
    requires t == Put(w, P[|P| - 2], 4 * (v - P[|P| - 2]))
    ensures Partition(P[|P| - 1 := v], v) && Headers(t, P[|P| - 1 := v], 0) && ListAs(t, first, L, P[|P| - 1 := v])
  {
    var P2 := P[|P| - 1 := v];
    var z := |P| - 2;
    forall i, j | 0 <= i < j < |P2|
      ensures P2[i] + 3 <= P2[j]
    {
      if j == |P| - 1 {
        assert P[i] + 3 <= P[j];
      }
    }
    forall i, j | 0 <= i < |P2| && j == i + 1 && j < |P2|
      ensures At(t, P2[i]) == 4 * (P2[j] - P2[i])
    {
      if i < z {
        assert P[i] + 3 <= P[z];
        assert At(w, P[i]) == 4 * (P[j] - P[i]);
      }
    }
    forall j | 0 <= j < |L|
      ensures IsBlock(P2, L[j])
      ensures At(t, L[j] + 1) == At(w, L[j] + 1) && At(t, L[j] + 2) == At(w, L[j] + 2)
    {
      var m := IndexOf(P, L[j]);
      BlockIndex(P, c, L[j]);
      LinkInside(P, c, m);
      InsideOnly(P, c, m, L[j] + 1);
      InsideOnly(P, c, m, L[j] + 2);
      assert P2[m] == L[j];
      Within(P, c, m);
    }
    ListFrame(w, t, first, L, P);
  }

  /**
   * The sweep at boundary a of the marked heap's blocks B: the blocks swept
   * so far are cut by P, ending at B[a], with exact headers and the rebuilt
   * list L; the headers from a on are B's with the mark bit masked.
   */
  ghost predicate SweepShape(s: HeapState, B: seq<int>, a: int, P: seq<int>, L: seq<int>) {
    WordsOk(s) && Partition(B, |s.w|) && 0 <= a < |B| && MaskedHeaders(s.w, B, a) &&
    Partition(P, B[a]) && Headers(s.w, P, 0) && ListAs(s.w, s.first, L, P)
  }

  /** The header the sweep meets at boundary a is B's, with or without the mark bit. */
  lemma SweptHeader(s: HeapState, B: seq<int>, a: int, P: seq<int>, L: seq<int>)
    requires SweepShape(s, B, a, P, L) && a < |B| - 1
    ensures 0 <= B[a] && B[a] + 3 <= B[a + 1] <= |s.w| && (4 * B[a]) / 4 == B[a]
    ensures var h := s.w[B[a]]; h % MARKBIT == 4 * (B[a + 1] - B[a]) && (h < MARKBIT || h - MARKBIT == 4 * (B[a + 1] - B[a]))
    ensures -1 <= s.first < 4 * B[a] && (s.first == -1 <==> |L| == 0)
  {
    Within(B, |s.w|, a);
    Within(B, |s.w|, a + 1);
    assert At(s.w, B[a]) % MARKBIT == 4 * (B[a + 1] - B[a]);
    if |L| > 0 {
      var m := IndexOf(P, L[0]);
      BlockIndex(P, B[a], L[0]);
      Within(P, B[a], m);
    }
  }

  /** A marked block has its mark cleared and joins the swept blocks; the list is unchanged. */
  lemma SweepClearShape(s: HeapState, B: seq<int>, a: int, P: seq<int>, L: seq<int>)
    requires SweepShape(s, B, a, P, L) && a < |B| - 1 && s.w[B[a]] >= MARKBIT
    ensures var step := SweepStep(s, 4 * B[a]);
            step.status == Ok && MaskedSize(At(step.state.w, B[a])) == 4 * (B[a + 1] - B[a]) &&
            SweepShape(step.state, B, a + 1, P + [B[a + 1]], L)
  {
    SweptHeader(s, B, a, P, L);
    var x := B[a];
    var h := s.w[x];
    var t := s.(w := Put(s.w, x, h - MARKBIT));
    assert SweepStep(s, 4 * x) == Effect(Ok, t);
    PrefixKept(s.w, t.w, s.first, P, L, x);
    ExtendPrefix(t.w, t.first, P, L, x, B[a + 1]);
    forall m | a + 1 <= m < |B|
      ensures At(t.w, B[m]) == At(s.w, B[m])
    {
      assert B[a] + 3 <= B[m];
    }
    MaskedHeadersFrame(s.w, t.w, B, a + 1);
  }

  /** FreeSpec on the sweep's unmarked block at word x: what it stores, for either branch. */
  lemma SweepFreeWords(s: HeapState, x: int, e: int)
    requires WordsOk(s) && 0 <= x && x + 3 <= e <= |s.w| && s.w[x] == 4 * (e - x) && -1 <= s.first < 4 * x
    ensures var step := SweepStep(s, 4 * x);
            step.status == Ok &&
            (Adjoins(s, 4 * x) ==> step.state.first == s.first && step.state.w == Put(s.w, s.first / 4, U32(At(s.w, s.first / 4) + s.w[x]))) &&
            (!Adjoins(s, 4 * x) ==>
               step.state.first == 4 * x && step.state.w == Put(Put(s.w, x + 1, U32(s.first)), x + 2, FREELISTBITPATTERN))
  {
    assert (4 * x) / 4 == x && (4 * x + 4 - 4) / 4 == x;
    var h := s.w[x];
    var s1 := if At(s.w, x + 2) != FREELISTBITPATTERN
              then s.(stats := s.stats.(bytesRecovered := s.stats.bytesRecovered + h,
                                        blocksRecovered := s.stats.blocksRecovered + 1))
              else s;
    assert SweepStep(s, 4 * x) == FreeSpec(s1, 4 * x + 4);
    assert Adjoins(s1, 4 * x) == Adjoins(s, 4 * x);
  }

  /** An unmarked block not behind the list head joins the swept blocks as the new head of the list. */
  lemma SweepPrependShape(s: HeapState, B: seq<int>, a: int, P: seq<int>, L: seq<int>)
    requires SweepShape(s, B, a, P, L) && a < |B| - 1 && s.w[B[a]] < MARKBIT && !Adjoins(s, 4 * B[a])
    ensures var step := SweepStep(s, 4 * B[a]);
            step.status == Ok && MaskedSize(At(step.state.w, B[a])) == 4 * (B[a + 1] - B[a]) &&
            SweepShape(step.state, B, a + 1, P + [B[a + 1]], [B[a]] + L)
  {
    SweptHeader(s, B, a, P, L);
    var x := B[a];
    SweepFreeWords(s, x, B[a + 1]);
    var t := SweepStep(s, 4 * x).state;
    PrefixKept(s.w, t.w, s.first, P, L, x);
    ExtendPrefix(t.w, s.first, P, L, x, B[a + 1]);
    assert At(t.w, x + 1) == U32(s.first) == (if |L| == 0 then NOLINK else 4 * L[0]);
    ConsList(t.w, s.first, L, P + [B[a + 1]], x);
    forall m | a + 1 <= m < |B|
      ensures At(t.w, B[m]) == At(s.w, B[m])
    {
      assert B[a] + 3 <= B[m];
    }
    MaskedHeadersFrame(s.w, t.w, B, a + 1);
  }

  /** An unmarked block right behind the list head is absorbed by the head, whose block now ends past it. */
  lemma SweepMergeShape(s: HeapState, B: seq<int>, a: int, P: seq<int>, L: seq<int>)
    requires SweepShape(s, B, a, P, L) && a < |B| - 1 && s.w[B[a]] < MARKBIT && Adjoins(s, 4 * B[a])
    ensures |P| >= 2
    ensures var step := SweepStep(s, 4 * B[a]);
            step.status == Ok && MaskedSize(At(step.state.w, B[a])) == 4 * (B[a + 1] - B[a]) &&
            SweepShape(step.state, B, a + 1, P[|P| - 1 := B[a + 1]], L)
  {
    SweptHeader(s, B, a, P, L);
    var x := B[a];
    SweepFreeWords(s, x, B[a + 1]);
    var t := SweepStep(s, 4 * x).state;
    var m := IndexOf(P, L[0]);
    BlockIndex(P, x, L[0]);
    Within(P, x, m);
    Within(P, x, m + 1);
    assert At(s.w, P[m]) == 4 * (P[m + 1] - P[m]);
    assert (4 * L[0]) / 4 == L[0];
    IndexUnique(P, x, m + 1, |P| - 1);
    assert t.w == Put(s.w, P[|P| - 2], 4 * (B[a + 1] - P[|P| - 2]));
    MergeTail(s.w, t.w, s.first, P, L, x, B[a + 1]);
    forall m' | a + 1 <= m' < |B|
      ensures At(t.w, B[m']) == At(s.w, B[m'])
    {
      assert B[a] + 3 <= B[m'];
    }
    MaskedHeadersFrame(s.w, t.w, B, a + 1);
  }

  /** One block of the sweep on the invariant: whichever case applies, it holds one boundary further on. */
  lemma SweepStepShape(s: HeapState, B: seq<int>, a: int, P: seq<int>, L: seq<int>) returns (P2: seq<int>, L2: seq<int>)
    requires SweepShape(s, B, a, P, L) && a < |B| - 1
    ensures var step := SweepStep(s, 4 * B[a]);
            step.status == Ok && MaskedSize(At(step.state.w, B[a])) == 4 * (B[a + 1] - B[a]) &&
            SweepShape(step.state, B, a + 1, P2, L2)
  {
    var x := B[a];
    SweptHeader(s, B, a, P, L);
    if s.w[x] >= MARKBIT {
      SweepClearShape(s, B, a, P, L);
      P2, L2 := P + [B[a + 1]], L;
    } else if Adjoins(s, 4 * x) {
      SweepMergeShape(s, B, a, P, L);
      P2, L2 := P[|P| - 1 := B[a + 1]], L;
    } else {
      SweepPrependShape(s, B, a, P, L);
      P2, L2 := P + [B[a + 1]], [x] + L;
    }
  }

  /** The first block of the sweep: the list is emptied and nothing has been swept. */
  lemma SweepStartShape(m: HeapState, B: seq<int>)
    requires WordsOk(m) && Partition(B, |m.w|) && MaskedHeaders(m.w, B, 0) && m.first == -1
    ensures SweepShape(m, B, 0, [0], [])
  {
  }

  /** At the last boundary, the end of the arena, the swept blocks are all of them. */
  lemma SweepDoneShape(s: HeapState, B: seq<int>, a: int, P: seq<int>, L: seq<int>, it: int)
    requires SweepShape(s, B, a, P, L) && a == |B| - 1 && it == 4 * B[a]
    ensures SweepFrom(s, it) == Effect(Ok, s) && Shape(s, P, L)
  {
  }

  /** Multiples of 4 leave no remainder. */
  lemma Times4(d: int)
    ensures (4 * d) % 4 == 0
  {
  }

  /** The state after sweeping the blocks of B from index a on, one after the other. */
  ghost function SweepTo(s: HeapState, B: seq<int>, a: int): (r: HeapState)
    requires AllU32(s.w) && 0 <= a < |B|
    ensures |r.w| == |s.w| && AllU32(r.w)
    decreases |B| - a
  {
    if a == |B| - 1 then s else SweepTo(SweepStep(s, 4 * B[a]).state, B, a + 1)
  }

  /** Sweeping the blocks of B from boundary a on leaves a heap cut by Bf with the free list Lf. */
  lemma {:induction false} SweepToShape(s: HeapState, B: seq<int>, a: int, P: seq<int>, L: seq<int>, r: HeapState)
    returns (Bf: seq<int>, Lf: seq<int>)
    requires SweepShape(s, B, a, P, L) && r == SweepTo(s, B, a)
    ensures Shape(r, Bf, Lf)
    decreases |B| - a
  {
    if a == |B| - 1 {
      SweepDoneShape(s, B, a, P, L, 4 * B[a]);
      Bf, Lf := P, L;
    } else {
      var P2, L2 := SweepStepShape(s, B, a, P, L);
      Bf, Lf := SweepToShape(SweepStep(s, 4 * B[a]).state, B, a + 1, P2, L2, r);
    }
  }

  /**
   * Sweeping the blocks of B from index a on, each step succeeds and
   * leaves the block's size, unmarked, in its header; the last boundary is
   * the end of the arena.
   */
  ghost predicate SweepsAlong(s: HeapState, B: seq<int>, a: int)
    requires AllU32(s.w) && 0 <= a < |B|
    decreases |B| - a
  {
    if a == |B| - 1 then B[a] == |s.w|
    else
      var step := SweepStep(s, 4 * B[a]);
      0 <= B[a] < B[a + 1] && B[a] < |s.w| &&
      step.status == Ok && MaskedSize(At(step.state.w, B[a])) == 4 * (B[a + 1] - B[a]) &&
      SweepsAlong(step.state, B, a + 1)
  }

  /** Under the sweep invariant every remaining step succeeds. */
  lemma {:induction false} SweepShapeAlong(s: HeapState, B: seq<int>, a: int, P: seq<int>, L: seq<int>)
    requires SweepShape(s, B, a, P, L)
    ensures SweepsAlong(s, B, a)
    decreases |B| - a
  {
    if a < |B| - 1 {
      SweptHeader(s, B, a, P, L);
      var P2, L2 := SweepStepShape(s, B, a, P, L);
      SweepShapeAlong(SweepStep(s, 4 * B[a]).state, B, a + 1, P2, L2);
    }
  }

  /** A walk whose first block of sz bytes is swept without a fault goes on at offset nx, just past it. */
  lemma SweepFromPast(s: HeapState, it: int, sz: int, nx: int, r: Effect)
    requires AllU32(s.w) && 0 <= it < 4 * |s.w| && SweepStep(s, it).status == Ok
    requires sz == MaskedSize(At(SweepStep(s, it).state.w, it / 4)) && sz > 0 && sz % 4 == 0
    requires nx == it + sz && r == SweepFrom(s, it)
    ensures r == SweepFrom(SweepStep(s, it).state, nx)
  {
    SweepFromStep(s, it);
  }

  /** The walk from the header at word x goes on at word e, after one step, when its block spans x to e. */
  lemma SweepFromNext(s: HeapState, x: int, e: int, r: Effect)
    requires AllU32(s.w) && 0 <= x < e && x < |s.w| && SweepStep(s, 4 * x).status == Ok
    requires MaskedSize(At(SweepStep(s, 4 * x).state.w, x)) == 4 * (e - x)
    requires r == SweepFrom(s, 4 * x)
    ensures r == SweepFrom(SweepStep(s, 4 * x).state, 4 * e)
  {
    assert (4 * x) / 4 == x;
    Times4(e - x);
    SweepFromPast(s, 4 * x, 4 * (e - x), 4 * e, r);
  }

  /** The result of the walk from boundary a is that of the walk from boundary a + 1, after one step. */
  lemma SweepFromMoves(s: HeapState, B: seq<int>, a: int, r: Effect)
    requires AllU32(s.w) && 0 <= a < |B| - 1 && SweepsAlong(s, B, a) && r == SweepFrom(s, 4 * B[a])
    ensures r == SweepFrom(SweepStep(s, 4 * B[a]).state, 4 * B[a + 1])
  {
    SweepFromNext(s, B[a], B[a + 1], r);
  }

  /**
   * The sweep loop from boundary a visits exactly the blocks of B when every
   * step along them succeeds: its result r is no fault, in the state f that
   * SweepTo gives.
   */
  lemma {:induction false} SweepFromTo(s: HeapState, B: seq<int>, a: int, r: Effect, f: HeapState)
    requires AllU32(s.w) && 0 <= a < |B| && SweepsAlong(s, B, a)
    requires r == SweepFrom(s, 4 * B[a]) && f == SweepTo(s, B, a)
    ensures r == Effect(Ok, f)
    decreases |B| - a
  {
    if a < |B| - 1 {
      SweepFromMoves(s, B, a, r);
      SweepFromTo(SweepStep(s, 4 * B[a]).state, B, a + 1, r, f);
    }
  }

  /**
   * gc on a well-formed heap, with any roots: the collection never faults,
   * and the heap it leaves, with the list rebuilt by the sweep, is well
   * formed again.
   */
  lemma GcKeepsShape(s: HeapState, B: seq<int>, L: seq<int>, objects: seq<int>, stack: seq<int>)
    requires Shape(s, B, L) && forall o :: o in objects ==> MarkTarget(|s.w|, o)
    ensures GcSpec(s, objects, stack).status == Ok && WellFormed(GcSpec(s, objects, stack).state)
  {
    var w1 := MarkObjects(s.w, objects);
    var marked := MarkStack(w1, stack);
    GainsTrans(s.w, w1, marked);
    GainsMasksHeaders(s.w, marked, B);
    var m := HeapState(marked, -1, s.stats.(gcs := s.stats.gcs + 1));
    SweepStartShape(m, B);
    SweepShapeAlong(m, B, 0, [0], []);
    SweepFromTo(m, B, 0, SweepFrom(m, 4 * B[0]), SweepTo(m, B, 0));
    var Bf, Lf := SweepToShape(m, B, 0, [0], [], SweepTo(m, B, 0));
  }

}
