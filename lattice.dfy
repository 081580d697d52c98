// The abstract-type lattice of the bytecode verifier and its bounds and
// type checks. Abstract types are short strings: "I", "F", the slot pairs
// "l"/"L" and "d"/"D", "Ll"/"Dd" for a long or double held in a local,
// "A..." for references, "N" null, "U" uninitialised, "X" conflict and "-"
// an empty slot. The checks return 0 on success and -1 on failure, as the
// source does.

module TypeLattice {

  /** isSimpleType: every tag that does not start with 'A' (the empty tag included) is simple. */
  predicate IsSimpleType(t: string) {
    !(|t| > 0 && t[0] == 'A')
  }

  /** A reference tag: one that starts with 'A'. */
  predicate IsReference(t: string) {
    |t| > 0 && t[0] == 'A'
  }

  /**
   * mergeTypes: the join of two slot types. `lub` stands for the external
   * least-upper-bound of two distinct reference types. The null checks that
   * follow the simple-type test are kept although no input reaches them.
   */
  function MergeTypes(t1: string, t2: string, lub: (string, string) -> string): (r: string)
    ensures r == t2 || r == "X" || r == "U" || r == t1 || r == lub(t1, t2)
  {
    if t1 == t2 then t2
    else if t1 == "X" || t2 == "X" then "X"
    else if t1 == "U" || t2 == "U" then "U"
    else if IsSimpleType(t1) || IsSimpleType(t2) then "X"
    else if t1 == "N" then t2
    else if t2 == "N" then t1
    else lub(t1, t2)
  }

  lemma SimpleIffNotReference(t: string)
    ensures IsSimpleType(t) <==> !IsReference(t)
    ensures IsSimpleType("N") && IsSimpleType("U") && IsSimpleType("X") && IsSimpleType("-")
    ensures IsSimpleType("") && !IsSimpleType("A")
  {
  }

  /** Merging a type with itself gives it back. */
  lemma MergeIdempotent(t: string, lub: (string, string) -> string)
    ensures MergeTypes(t, t, lub) == t
  {
  }

  /** Every branch is symmetric, so the merge commutes whenever the external join does. */
  lemma MergeCommutes(t1: string, t2: string, lub: (string, string) -> string)
    requires forall a: string, b: string :: lub(a, b) == lub(b, a)
    ensures MergeTypes(t1, t2, lub) == MergeTypes(t2, t1, lub)
  {
    if t1 != t2 && IsReference(t1) && IsReference(t2) && t1 != "X" && t2 != "X" && t1 != "U" && t2 != "U" {
      assert lub(t1, t2) == lub(t2, t1);
    }
  }

  /** Distinct inputs resolve in the order: conflict, then uninitialised, then any simple operand. */
  lemma MergeDistinctOrder(t1: string, t2: string, lub: (string, string) -> string)
    requires t1 != t2
    ensures (t1 == "X" || t2 == "X") ==> MergeTypes(t1, t2, lub) == "X"
    ensures t1 != "X" && t2 != "X" && (t1 == "U" || t2 == "U") ==> MergeTypes(t1, t2, lub) == "U"
    ensures t1 != "X" && t2 != "X" && t1 != "U" && t2 != "U" && (IsSimpleType(t1) || IsSimpleType(t2))
            ==> MergeTypes(t1, t2, lub) == "X"
    ensures IsReference(t1) && IsReference(t2) ==> MergeTypes(t1, t2, lub) == lub(t1, t2)
  {
  }

  /** Because null is simple, null merged with any reference is a conflict, never the reference. */
  lemma MergeNullWithReference(a: string, lub: (string, string) -> string)
    requires IsReference(a)
    ensures MergeTypes("N", a, lub) == "X" && MergeTypes(a, "N", lub) == "X"
  {
    assert a != "N" && a != "X" && a != "U";
  }

  /** checkStackOverflow: fails exactly when pushing would exceed the maximum height. */
  function CheckStackOverflow(stksize: int, toPush: int, max: int): (r: int)
    ensures r == 0 || r == -1
    ensures r == -1 <==> stksize + toPush > max
  {
    if stksize + toPush > max then -1 else 0
  }

  /** checkStackUnderflow: fails exactly when popping would make the height negative. */
  function CheckStackUnderflow(stksize: int, toPop: int): (r: int)
    ensures r == 0 || r == -1
    ensures r == -1 <==> stksize - toPop < 0
  {
    if stksize - toPop < 0 then -1 else 0
  }

  /** checkInCPRange: fails exactly when the index exceeds the pool count. */
  function CheckInCPRange(cprange: int, ind: int): (r: int)
    ensures r == 0 || r == -1
    ensures r == -1 <==> cprange < ind
  {
    if cprange < ind then -1 else 0
  }

  /** checkValidConstantType: tags 0, 2 and anything above 12 are invalid. */
  function CheckValidConstantType(tag: int): (r: int)
    ensures r == 0 || r == -1
    ensures r == -1 <==> tag == 0 || tag == 2 || tag > 12
  {
    if tag == 0 || tag == 2 || tag > 12 then -1 else 0
  }

  /** checkCPType: fails exactly when the actual tag differs from the expected one. */
  function CheckCPType(actualType: int, expType: int): (r: int)
    ensures r == 0 || r == -1
    ensures r == -1 <==> actualType != expType
  {
    if actualType != expType then -1 else 0
  }

  /** checkInLocalsRange: fails exactly when the local index is at or beyond the maximum. */
  function CheckInLocalsRange(varnum: int, max: int): (r: int)
    ensures r == 0 || r == -1
    ensures r == -1 <==> varnum >= max
  {
    if varnum >= max then -1 else 0
  }

  /**
   * checkJumpPosition, a function of its own in the source with the same
   * shape as checkInLocalsRange: fails exactly when the target is at or
   * beyond the code length. A negative target is not rejected.
   */
  function CheckJumpPosition(pos: int, imax: int): (r: int)
    ensures r == 0 || r == -1
    ensures r == -1 <==> pos >= imax
  {
    if pos >= imax then -1 else 0
  }

  /** The constant-pool range check lets the index equal to the count through. */
  lemma CPRangeAdmitsCount(count: int)
    ensures CheckInCPRange(count, count) == 0
    ensures CheckInCPRange(count, count + 1) == -1
  {
  }

  /** Exactly the tags 1 and 3..12 are valid constant types. */
  lemma ValidConstantTypes(tag: int)
    requires 0 <= tag
    ensures CheckValidConstantType(tag) == 0 <==> tag == 1 || (3 <= tag <= 12)
  {
  }

  /** compareSimpleTypes: succeeds exactly when the two tags are equal. */
  function CompareSimpleTypes(t1: string, t2: string): (r: int)
    ensures r == 0 || r == -1
    ensures r == 0 <==> t1 == t2
  {
    if t1 == t2 then 0 else -1
  }

  /** The specification of compareReferenceTypes: one tag is a prefix of the other. */
  predicate RefCompatible(t1: string, t2: string) {
    t1 <= t2 || t2 <= t1
  }

  /** compareReferenceTypes: compares character by character up to the shorter tag. */
  method CompareReferenceTypes(t1: string, t2: string) returns (r: int)
    ensures r == 0 || r == -1
    ensures r == 0 <==> RefCompatible(t1, t2)
  {
    var i := 0;
    while i < |t1| && i < |t2|
      invariant 0 <= i <= |t1| && 0 <= i <= |t2|
      invariant t1[..i] == t2[..i]
    {
      if t1[i] != t2[i] {
        assert !(t1 <= t2) && !(t2 <= t1) by {
          assert t1[i] != t2[i];
        }
        return -1;
      }
      i := i + 1;
    }
    if i == |t1| {
      assert t1 == t2[..i];
    } else {
      assert t2 == t1[..i];
    }
    return 0;
  }

  /** "A" matches every reference tag, and two references that differ early do not match. */
  lemma RefCompatibleExamples(a: string)
    requires IsReference(a)
    ensures RefCompatible("A", a) && RefCompatible(a, "A")
    ensures !RefCompatible("A[I", "A[F") && RefCompatible("A[", "A[Ll")
  {
    assert "A" == a[..1];
    assert "A[I"[2] != "A[F"[2];
    assert "A[" == "A[Ll"[..2];
  }
}
