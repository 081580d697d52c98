// The instruction table of the bytecode verifier and the work it does on it:
// merging a frame into a successor, installing a copy in an unvisited
// successor, scanning cyclically for the next changed instruction, running one
// instruction, and the worklist loop that verifies a method.
//
// The table is an array with one entry per code byte. Each entry owns its
// type array, which the model holds as a sequence value.

module BytecodeVerifier {
  import opened TypeLattice
  import opened OpcodeTransfer

  /** InstructionInfo: the changed bit, the type array (absent until first reached) and the stack height. */
  datatype InstructionInfo = InstructionInfo(cbit: bool, state: Option<seq<string>>, stksize: int)

  datatype Outcome = Verified | Failed(at: int) | OutOfFuel

  predicate EntryOk(m: MethodInfo, e: InstructionInfo) {
    e.state.Some? ==> |e.state.value| == TypeArrSize(m) && 0 <= e.stksize <= m.maxStack
  }

  predicate TableOk(m: MethodInfo, t: seq<InstructionInfo>) {
    |t| == |m.code| && forall i :: 0 <= i < |t| ==> EntryOk(m, t[i])
  }

  /** An entry waiting to be verified: it has a state and its changed bit is set. */
  predicate Ready(e: InstructionInfo) {
    e.state.Some? && e.cbit
  }

  predicate IsEmptySlot(t: string) {
    |t| > 0 && t[0] == '-'
  }

  // ---- mergeState ---------------------------------------------------------

  /** Where the merge loop stops: the first slot below len whose current tag is "-", or len. */
  function MergeLimit(cur: seq<string>, len: nat, i: nat): (k: nat)
    requires i <= len <= |cur|
    ensures i <= k <= len
    ensures forall j :: i <= j < k ==> !IsEmptySlot(cur[j])
    ensures k < len ==> IsEmptySlot(cur[k])
    decreases len - i
  {
    if i == len || IsEmptySlot(cur[i]) then i else MergeLimit(cur, len, i + 1)
  }

  /** MergeLimit is the first stop point: any k with only non-empty slots before it that stops there. */
  lemma {:induction false} MergeLimitIs(cur: seq<string>, len: nat, i: nat, k: nat)
    requires i <= k <= len <= |cur|
    requires forall j :: i <= j < k ==> !IsEmptySlot(cur[j])
    requires k == len || IsEmptySlot(cur[k])
    ensures MergeLimit(cur, len, i) == k
    decreases k - i
  {
    if i < k {
      MergeLimitIs(cur, len, i + 1, k);
    }
  }

  /** succ with its first n slots replaced by their merge with cur. */
  function MergePrefix(cur: seq<string>, succ: seq<string>, n: nat, lub: (string, string) -> string): (r: seq<string>)
    requires n <= |cur| && n <= |succ|
    ensures |r| == |succ|
    ensures forall j :: 0 <= j < n ==> r[j] == MergeTypes(cur[j], succ[j], lub)
    ensures forall j :: n <= j < |succ| ==> r[j] == succ[j]
  {
    seq(|succ|, j requires 0 <= j < |succ| => if j < n then MergeTypes(cur[j], succ[j], lub) else succ[j])
  }

  /** The slots mergeState leaves in the successor. */
  function MergedSlots(cur: seq<string>, succ: seq<string>, len: nat, lub: (string, string) -> string): seq<string>
    requires len <= |cur| && len <= |succ|
  {
    MergePrefix(cur, succ, MergeLimit(cur, len, 0), lub)
  }

  /** mergeState on table values: -1 and no change on a height mismatch, else merged slots and cbit set. */
  function MergeSpec(t: seq<InstructionInfo>, cur: int, next: int, len: nat, lub: (string, string) -> string)
    : (int, seq<InstructionInfo>)
    requires 0 <= cur < |t| && 0 <= next < |t| && t[cur].state.Some? && t[next].state.Some?
    requires len <= |t[cur].state.value| && len <= |t[next].state.value|
  {
    if t[cur].stksize != t[next].stksize then (-1, t)
    else (0, t[next := InstructionInfo(true, Some(MergedSlots(t[cur].state.value, t[next].state.value, len, lub)),
                                       t[next].stksize)])
  }

  /** No slot of cur up to and including j is "-". */
  predicate NoEmptyUpTo(cur: seq<string>, j: int)
    requires j < |cur|
  {
    forall i :: 0 <= i <= j ==> !IsEmptySlot(cur[i])
  }

  /** Each slot before the first "-" of the current state is merged; every later slot is kept. */
  lemma MergedSlotsMeaning(cur: seq<string>, succ: seq<string>, len: nat, lub: (string, string) -> string)
    requires len <= |cur| && len <= |succ|
    ensures |MergedSlots(cur, succ, len, lub)| == |succ|
    ensures forall j :: 0 <= j < len && NoEmptyUpTo(cur, j) ==>
              MergedSlots(cur, succ, len, lub)[j] == MergeTypes(cur[j], succ[j], lub)
    ensures forall j :: 0 <= j < |succ| && !(j < len && NoEmptyUpTo(cur, j)) ==>
              MergedSlots(cur, succ, len, lub)[j] == succ[j]
  {
    var k := MergeLimit(cur, len, 0);
    assert forall j :: 0 <= j < len && NoEmptyUpTo(cur, j) ==> j < k;
    forall j | 0 <= j < |succ| && !(j < len && NoEmptyUpTo(cur, j))
      ensures k <= j
    {
      if j < len {
        assert !NoEmptyUpTo(cur, j);
        var i :| 0 <= i <= j && IsEmptySlot(cur[i]);
        assert k <= i;
      }
    }
  }

  /** Merging a state into an equal one leaves every slot as it was. */
  lemma MergeSelf(s: seq<string>, len: nat, lub: (string, string) -> string)
    requires len <= |s|
    ensures MergedSlots(s, s, len, lub) == s
  {
    var r := MergedSlots(s, s, len, lub);
    forall j | 0 <= j < |s| ensures r[j] == s[j] {
      MergeIdempotent(s[j], lub);
    }
  }

  /** mergeState: merge the current entry's slots into the successor's, in place. */
  method MergeState(itable: array<InstructionInfo>, oldi: int, newi: int, typeArrLen: nat,
                    lub: (string, string) -> string) returns (r: int)
    requires 0 <= oldi < itable.Length && 0 <= newi < itable.Length
    requires itable[oldi].state.Some? && itable[newi].state.Some?
    requires typeArrLen <= |itable[oldi].state.value| && typeArrLen <= |itable[newi].state.value|
    modifies itable
    ensures r == -1 <==> old(itable[oldi].stksize) != old(itable[newi].stksize)
    ensures (r, itable[..]) == MergeSpec(old(itable[..]), oldi, newi, typeArrLen, lub)
  {
    if itable[oldi].stksize != itable[newi].stksize {
      return -1;
    }
    ghost var t0 := itable[..];
    var cur := itable[oldi].state.value;
    ghost var succ := itable[newi].state.value;
    var i := 0;
    assert MergePrefix(cur, succ, 0, lub) == succ;
    while i < typeArrLen && !IsEmptySlot(cur[i])
      invariant 0 <= i <= typeArrLen
      invariant forall j :: 0 <= j < i ==> !IsEmptySlot(cur[j])
      invariant itable[..] == t0[newi := t0[newi].(state := Some(MergePrefix(cur, succ, i, lub)))]
    {
      var s := itable[newi].state.value;
      itable[newi] := itable[newi].(state := Some(s[i := MergeTypes(cur[i], s[i], lub)]));
      assert s[i := MergeTypes(cur[i], s[i], lub)] == MergePrefix(cur, succ, i + 1, lub);
      i := i + 1;
    }
    MergeLimitIs(cur, typeArrLen, 0, i);
    itable[newi] := itable[newi].(cbit := true);
    assert cur == t0[oldi].state.value && succ == t0[newi].state.value;
    assert itable[newi] == InstructionInfo(true, Some(MergedSlots(cur, succ, typeArrLen, lub)), t0[newi].stksize);
    assert itable[..] == t0[newi := InstructionInfo(true, Some(MergedSlots(cur, succ, typeArrLen, lub)), t0[newi].stksize)];
    return 0;
  }

  // ---- copyState, dupInstructionInfo, updateInstruction --------------------

  /** copyState: an element-wise copy of the first len slots. */
  method CopyState(s1: seq<string>, len: nat) returns (s2: seq<string>)
    requires len <= |s1|
    ensures s2 == s1[..len]
  {
    s2 := [];
    var i := 0;
    while i < len
      invariant 0 <= i <= len
      invariant s2 == s1[..i]
    {
      s2 := s2 + [s1[i]];
      i := i + 1;
    }
  }

  /** The entry dupInstructionInfo installs: cbit set, a copy of the state, the same height. */
  function Dup(oldi: InstructionInfo, len: nat): InstructionInfo
    requires oldi.state.Some? && len <= |oldi.state.value|
  {
    InstructionInfo(true, Some(oldi.state.value[..len]), oldi.stksize)
  }

  method DupInstructionInfo(itable: array<InstructionInfo>, oldi: int, newi: int, typeArrayLen: nat)
    requires 0 <= oldi < itable.Length && 0 <= newi < itable.Length
    requires itable[oldi].state.Some? && typeArrayLen <= |itable[oldi].state.value|
    modifies itable
    ensures itable[..] == old(itable[..])[newi := Dup(old(itable[oldi]), typeArrayLen)]
  {
    var s := CopyState(itable[oldi].state.value, typeArrayLen);
    itable[newi] := InstructionInfo(true, Some(s), itable[oldi].stksize);
  }

  /** updateInstruction on table values: merge into a reached successor, copy into a new one. */
  function UpdateSpec(t: seq<InstructionInfo>, cur: int, next: int, len: nat, lub: (string, string) -> string)
    : (int, seq<InstructionInfo>)
    requires 0 <= cur < |t| && 0 <= next < |t| && t[cur].state.Some? && len <= |t[cur].state.value|
    requires t[next].state.Some? ==> len <= |t[next].state.value|
  {
    if t[next].state.Some? then MergeSpec(t, cur, next, len, lub)
    else (0, t[next := Dup(t[cur], len)])
  }

  /**
   * A successor with no state gets a copy of the current state, the same
   * height and cbit set, and nothing else changes; a merge fails exactly on a
   * height mismatch, and then nothing changes.
   */
  lemma UpdateMeaning(t: seq<InstructionInfo>, cur: int, next: int, len: nat, lub: (string, string) -> string)
    requires 0 <= cur < |t| && 0 <= next < |t| && t[cur].state.Some? && len == |t[cur].state.value|
    requires t[next].state.Some? ==> len == |t[next].state.value|
    ensures var (r, t') := UpdateSpec(t, cur, next, len, lub);
            |t'| == |t| && (forall i :: 0 <= i < |t| && i != next ==> t'[i] == t[i]) &&
            (t[next].state.None? ==>
               r == 0 && t'[next] == InstructionInfo(true, t[cur].state, t[cur].stksize)) &&
            (t[next].state.Some? ==>
               (r == -1 <==> t[cur].stksize != t[next].stksize) &&
               (r == -1 ==> t' == t) &&
               (r == 0 ==> t'[next].cbit && t'[next].stksize == t[next].stksize))
  {
    assert t[cur].state.value[..len] == t[cur].state.value;
  }

  method UpdateInstruction(itable: array<InstructionInfo>, icurr: int, inext: int, typeArrSize: nat,
                           lub: (string, string) -> string) returns (r: int)
    requires 0 <= icurr < itable.Length && 0 <= inext < itable.Length
    requires itable[icurr].state.Some? && typeArrSize <= |itable[icurr].state.value|
    requires itable[inext].state.Some? ==> typeArrSize <= |itable[inext].state.value|
    modifies itable
    ensures (r, itable[..]) == UpdateSpec(old(itable[..]), icurr, inext, typeArrSize, lub)
  {
    if itable[inext].state.Some? {
      r := MergeState(itable, icurr, inext, typeArrSize, lub);
    } else {
      DupInstructionInfo(itable, icurr, inext, typeArrSize);
      r := 0;
    }
  }

  /** Table well-formedness survives an update. */
  lemma UpdateKeepsTableOk(m: MethodInfo, t: seq<InstructionInfo>, cur: int, next: int, lub: (string, string) -> string)
    requires TableOk(m, t) && 0 <= cur < |t| && 0 <= next < |t| && t[cur].state.Some?
    ensures TableOk(m, UpdateSpec(t, cur, next, TypeArrSize(m), lub).1)
    ensures UpdateSpec(t, cur, next, TypeArrSize(m), lub).1[cur].state.Some?
  {
    assert EntryOk(m, t[cur]) && EntryOk(m, t[next]);
  }

  // ---- findChangedInstruction ----------------------------------------------

  /** The index probed k steps after start in the cyclic scan, wrapping once past the end. */
  function Probe(start: int, k: int, n: int): (p: int)
    requires 0 <= start < n && 0 <= k <= n
    ensures 0 <= p < n
  {
    if start + k < n then start + k else start + k - n
  }

  /** The first ready entry among probes k, k+1, .. n-1 from start, or -1. */
  function FirstReady(t: seq<InstructionInfo>, start: nat, k: nat): (r: int)
    requires start < |t| || |t| == 0
    ensures r == -1 || (0 <= r < |t| && Ready(t[r]))
    decreases |t| - k
  {
    if k >= |t| then -1
    else if Ready(t[Probe(start, k, |t|)]) then Probe(start, k, |t|)
    else FirstReady(t, start, k + 1)
  }

  /** -1 exactly when no remaining probe is ready; otherwise the first ready probe. */
  lemma {:induction false} FirstReadyMeaning(t: seq<InstructionInfo>, start: nat, k: nat)
    requires start < |t| && k <= |t|
    ensures FirstReady(t, start, k) == -1 <==> forall j :: k <= j < |t| ==> !Ready(t[Probe(start, j, |t|)])
    ensures FirstReady(t, start, k) != -1 ==>
              exists j :: k <= j < |t| && FirstReady(t, start, k) == Probe(start, j, |t|) &&
                          forall i :: k <= i < j ==> !Ready(t[Probe(start, i, |t|)])
    decreases |t| - k
  {
    if k < |t| && !Ready(t[Probe(start, k, |t|)]) {
      FirstReadyMeaning(t, start, k + 1);
      if FirstReady(t, start, k + 1) != -1 {
        var j :| k + 1 <= j < |t| && FirstReady(t, start, k + 1) == Probe(start, j, |t|) &&
                 forall i :: k + 1 <= i < j ==> !Ready(t[Probe(start, i, |t|)]);
        assert forall i :: k <= i < j ==> !Ready(t[Probe(start, i, |t|)]);
      }
    }
  }

  /** The n probes from any start visit every index. */
  lemma ProbesCoverAll(start: nat, n: nat, i: int)
    requires start < n && 0 <= i < n
    ensures exists j :: 0 <= j < n && Probe(start, j, n) == i
  {
    if i >= start {
      assert Probe(start, i - start, n) == i;
    } else {
      assert Probe(start, i - start + n, n) == i;
    }
  }

  /** The full scan returns -1 exactly when no entry at all is ready. */
  lemma NoneReadyMeansSettled(t: seq<InstructionInfo>, start: nat)
    requires start < |t|
    ensures FirstReady(t, start, 0) == -1 <==> forall i :: 0 <= i < |t| ==> !Ready(t[i])
  {
    FirstReadyMeaning(t, start, 0);
    if FirstReady(t, start, 0) == -1 {
      forall i | 0 <= i < |t| ensures !Ready(t[i]) {
        ProbesCoverAll(start, |t|, i);
      }
    }
  }

  /** findChangedInstruction: probe ipos, ipos+1, .. cyclically, at most imax times. */
  method FindChangedInstruction(itable: array<InstructionInfo>, ipos: int, imax: int) returns (r: int)
    requires imax == itable.Length && 0 <= ipos < imax
    ensures r == FirstReady(itable[..], ipos, 0)
    ensures r == -1 <==> forall i :: 0 <= i < imax ==> !Ready(itable[i])
    ensures r != -1 ==> 0 <= r < imax && Ready(itable[r])
  {
    var numchecked := 0;
    var p := ipos;
    while numchecked < imax
      invariant 0 <= numchecked <= imax
      invariant p == Probe(ipos, numchecked, imax)
      invariant FirstReady(itable[..], ipos, numchecked) == FirstReady(itable[..], ipos, 0)
    {
      if itable[p].state.Some? && itable[p].cbit {
        r := p;
        NoneReadyMeansSettled(itable[..], ipos);
        return;
      }
      assert (p + 1) % imax == Probe(ipos, numchecked + 1, imax) by {
        ProbeStep(ipos, numchecked, imax);
      }
      p := (p + 1) % imax;
      numchecked := numchecked + 1;
    }
    NoneReadyMeansSettled(itable[..], ipos);
    return -1;
  }

  /** One step of `ipos = (ipos + 1) % imax` moves to the next probe. */
  lemma ProbeStep(ipos: int, k: nat, n: int)
    requires 0 <= ipos < n && k < n
    ensures (Probe(ipos, k, n) + 1) % n == Probe(ipos, k + 1, n)
  {
    var p := Probe(ipos, k, n);
    if p + 1 < n {
      assert (p + 1) % n == p + 1;
    } else {
      assert (p + 1) % n == 0;
    }
  }

  // ---- verifyOpcode ---------------------------------------------------------

  /** Propagate one successor: a target outside the table fails; an ignored merge result never fails. */
  function FollowSpec(t: seq<InstructionInfo>, m: MethodInfo, lub: (string, string) -> string, ipos: int, s: Succ)
    : (r: Option<seq<InstructionInfo>>)
    requires TableOk(m, t) && 0 <= ipos < |t| && t[ipos].state.Some?
    ensures r.Some? ==> TableOk(m, r.value) && r.value[ipos].state.Some?
  {
    if !(0 <= s.target < |t|) then None
    else
      UpdateKeepsTableOk(m, t, ipos, s.target, lub);
      var (code, t') := UpdateSpec(t, ipos, s.target, TypeArrSize(m), lub);
      if code == -1 && s.checked then None else Some(t')
  }

  function Propagate(t: seq<InstructionInfo>, m: MethodInfo, lub: (string, string) -> string, ipos: int, succs: seq<Succ>)
    : (r: Option<seq<InstructionInfo>>)
    requires TableOk(m, t) && 0 <= ipos < |t| && t[ipos].state.Some?
    ensures r.Some? ==> TableOk(m, r.value) && r.value[ipos].state.Some?
    decreases |succs|
  {
    if succs == [] then Some(t)
    else
      match FollowSpec(t, m, lub, ipos, succs[0])
      case None => None
      case Some(t') => Propagate(t', m, lub, ipos, succs[1..])
  }

  /**
   * verifyOpcode on table values: clear the entry's cbit, run the transfer
   * function on its frame, write the resulting frame back into the entry and
   * propagate it to the successors. None when the instruction fails.
   */
  function OpcodeSpec(t: seq<InstructionInfo>, cf: ClassFile, m: MethodInfo, ipos: int, retType: string)
    : (r: Option<seq<InstructionInfo>>)
    requires TableOk(m, t) && 0 <= ipos < |t| && t[ipos].state.Some?
    ensures r.Some? ==> TableOk(m, r.value) && r.value[ipos].state.Some?
  {
    var f := Frame(t[ipos].state.value, t[ipos].stksize);
    assert EntryOk(m, t[ipos]);
    match Transfer(cf, m, ipos, f, retType)
    case Fail => None
    case Next(post, succs) =>
      Propagate(t[ipos := InstructionInfo(false, Some(post.slots), post.sz)], m, cf.lub, ipos, succs)
  }

  method FollowSuccessor(itable: array<InstructionInfo>, m: MethodInfo, lub: (string, string) -> string,
                         ipos: int, s: Succ) returns (r: int)
    requires TableOk(m, itable[..]) && 0 <= ipos < itable.Length && itable[ipos].state.Some?
    modifies itable
    ensures r == 0 || r == -1
    ensures r == 0 <==> FollowSpec(old(itable[..]), m, lub, ipos, s).Some?
    ensures r == 0 ==> itable[..] == FollowSpec(old(itable[..]), m, lub, ipos, s).value
  {
    if !(0 <= s.target < itable.Length) {
      return -1;
    }
    assert EntryOk(m, itable[ipos]) && EntryOk(m, itable[s.target]);
    var u := UpdateInstruction(itable, ipos, s.target, TypeArrSize(m), lub);
    r := if u == -1 && s.checked then -1 else 0;
  }

  /** verifyOpcode: verify the instruction at ipos in place and propagate its frame. */
  method VerifyOpcode(itable: array<InstructionInfo>, cf: ClassFile, m: MethodInfo, ipos: int, retType: string)
    returns (r: int)
    requires TableOk(m, itable[..]) && 0 <= ipos < itable.Length && itable[ipos].state.Some?
    modifies itable
    ensures r == 0 || r == -1
    ensures r == 0 <==> OpcodeSpec(old(itable[..]), cf, m, ipos, retType).Some?
    ensures r == 0 ==> itable[..] == OpcodeSpec(old(itable[..]), cf, m, ipos, retType).value
  {
    ghost var t0 := itable[..];
    assert EntryOk(m, itable[ipos]);
    itable[ipos] := itable[ipos].(cbit := false);
    var f := Frame(itable[ipos].state.value, itable[ipos].stksize);
    var step := Transfer(cf, m, ipos, f, retType);
    if step.Fail? {
      return -1;
    }
    itable[ipos] := InstructionInfo(false, Some(step.post.slots), step.post.sz);
    ghost var t1 := itable[..];
    assert t1 == t0[ipos := InstructionInfo(false, Some(step.post.slots), step.post.sz)];
    assert OpcodeSpec(t0, cf, m, ipos, retType) == Propagate(t1, m, cf.lub, ipos, step.succs);
    r := 0;
    if |step.succs| >= 1 {
      r := FollowSuccessor(itable, m, cf.lub, ipos, step.succs[0]);
      if r == 0 && |step.succs| == 2 {
        ghost var t2 := itable[..];
        assert Propagate(t1, m, cf.lub, ipos, step.succs) == Propagate(t2, m, cf.lub, ipos, step.succs[1..]);
        r := FollowSuccessor(itable, m, cf.lub, ipos, step.succs[1]);
        assert step.succs[1..][1..] == [];
        assert r == 0 ==> Propagate(t2, m, cf.lub, ipos, step.succs[1..]) == Some(itable[..]);
        assert r == -1 ==> Propagate(t2, m, cf.lub, ipos, step.succs[1..]) == None;
      } else if r == 0 {
        assert step.succs[1..] == [];
        assert Propagate(t1, m, cf.lub, ipos, step.succs) == Some(itable[..]);
      } else {
        assert Propagate(t1, m, cf.lub, ipos, step.succs) == None;
      }
    } else {
      assert Propagate(t1, m, cf.lub, ipos, step.succs) == Some(t1);
    }
  }

  // ---- verifyMethod ---------------------------------------------------------

  /** The table createInstructionTable builds: only instruction 0 has a state, with cbit set. */
  function InitialTable(m: MethodInfo, initState: seq<string>): (t: seq<InstructionInfo>)
    requires |m.code| > 0
    ensures |t| == |m.code| && t[0] == InstructionInfo(true, Some(initState), 0)
    ensures forall i :: 0 < i < |t| ==> t[i].state.None?
    ensures |initState| == TypeArrSize(m) ==> TableOk(m, t)
  {
    [InstructionInfo(true, Some(initState), 0)] + seq(|m.code| - 1, _ => InstructionInfo(false, None, 0))
  }

  method CreateInstructionTable(m: MethodInfo, initState: seq<string>) returns (itable: array<InstructionInfo>)
    requires |m.code| > 0
    ensures fresh(itable) && itable[..] == InitialTable(m, initState)
  {
    itable := new InstructionInfo[|m.code|](_ => InstructionInfo(false, None, 0));
    itable[0] := InstructionInfo(true, Some(initState), 0);
  }

  /**
   * The do/while loop of verifyMethod, run for at most `fuel` instructions:
   * verify the instruction at ipos, then continue at the next changed one
   * found by the cyclic scan; Verified when none is left.
   */
  function Run(t: seq<InstructionInfo>, ipos: int, fuel: nat, cf: ClassFile, m: MethodInfo, retType: string)
    : (r: (Outcome, seq<InstructionInfo>))
    requires TableOk(m, t) && 0 <= ipos < |t| && t[ipos].state.Some?
    ensures TableOk(m, r.1)
    decreases fuel
  {
    if fuel == 0 then (OutOfFuel, t)
    else
      match OpcodeSpec(t, cf, m, ipos, retType)
      case None => (Failed(ipos), t)
      case Some(t') =>
        var n := FirstReady(t', ipos, 0);
        if n == -1 then (Verified, t') else Run(t', n, fuel - 1, cf, m, retType)
  }

  /** verifyMethod: the worklist loop; a failing instruction ends it, as the source's exit does. */
  method VerifyMethod(cf: ClassFile, m: MethodInfo, initState: seq<string>, retType: string, fuel: nat)
    returns (outcome: Outcome, itable: array<InstructionInfo>)
    requires |m.code| > 0 && |initState| == TypeArrSize(m)
    ensures outcome == Run(InitialTable(m, initState), 0, fuel, cf, m, retType).0
    ensures outcome == Verified ==> itable[..] == Run(InitialTable(m, initState), 0, fuel, cf, m, retType).1
  {
    itable := CreateInstructionTable(m, initState);
    ghost var t0 := itable[..];
    var ipos := 0;
    var left := fuel;
    while true
      invariant TableOk(m, itable[..]) && 0 <= ipos < itable.Length && itable[ipos].state.Some?
      invariant Run(itable[..], ipos, left, cf, m, retType) == Run(t0, 0, fuel, cf, m, retType)
      decreases left
    {
      if left == 0 {
        return OutOfFuel, itable;
      }
      ghost var before := itable[..];
      var r := VerifyOpcode(itable, cf, m, ipos, retType);
      if r == -1 {
        return Failed(ipos), itable;
      }
      var nextPos := FindChangedInstruction(itable, ipos, itable.Length);
      if nextPos == -1 {
        return Verified, itable;
      }
      ipos := nextPos;
      left := left - 1;
    }
  }

  // ---- properties of the worklist --------------------------------------------

  /** Propagation changes only the entries its successors name. */
  lemma {:induction false} PropagateTouchesOnlyTargets(t: seq<InstructionInfo>, m: MethodInfo,
                                                      lub: (string, string) -> string, ipos: int, succs: seq<Succ>, i: int)
    requires TableOk(m, t) && 0 <= ipos < |t| && t[ipos].state.Some? && 0 <= i < |t|
    requires forall k :: 0 <= k < |succs| ==> succs[k].target != i
    ensures Propagate(t, m, lub, ipos, succs).Some? ==> Propagate(t, m, lub, ipos, succs).value[i] == t[i]
    decreases |succs|
  {
    if succs != [] {
      match FollowSpec(t, m, lub, ipos, succs[0])
      case None =>
      case Some(t') =>
        assert t'[i] == t[i];
        PropagateTouchesOnlyTargets(t', m, lub, ipos, succs[1..], i);
        assert forall k :: 0 <= k < |succs[1..]| ==> succs[1..][k] == succs[k + 1];
    }
  }

  /**
   * verifyOpcode clears the changed bit of the instruction it verifies: after
   * a successful step the entry holds the frame the instruction produced with
   * cbit clear, unless the instruction is its own successor.
   */
  lemma OpcodeClearsCbit(t: seq<InstructionInfo>, cf: ClassFile, m: MethodInfo, ipos: int, retType: string)
    requires TableOk(m, t) && 0 <= ipos < |t| && t[ipos].state.Some?
    ensures var f := Frame(t[ipos].state.value, t[ipos].stksize);
            var step := Transfer(cf, m, ipos, f, retType);
            var r := OpcodeSpec(t, cf, m, ipos, retType);
            (step.Fail? ==> r.None?) &&
            (r.Some? && (forall k :: 0 <= k < |step.succs| ==> step.succs[k].target != ipos) ==>
               r.value[ipos] == InstructionInfo(false, Some(step.post.slots), step.post.sz))
  {
    var f := Frame(t[ipos].state.value, t[ipos].stksize);
    assert EntryOk(m, t[ipos]);
    var step := Transfer(cf, m, ipos, f, retType);
    if step.Next? {
      var t1 := t[ipos := InstructionInfo(false, Some(step.post.slots), step.post.sz)];
      if forall k :: 0 <= k < |step.succs| ==> step.succs[k].target != ipos {
        PropagateTouchesOnlyTargets(t1, m, cf.lub, ipos, step.succs, ipos);
      }
    }
  }

  /** A Verified run leaves no entry waiting: the worklist is empty. */
  lemma {:induction false} VerifiedMeansSettled(t: seq<InstructionInfo>, ipos: int, fuel: nat, cf: ClassFile,
                                               m: MethodInfo, retType: string)
    requires TableOk(m, t) && 0 <= ipos < |t| && t[ipos].state.Some?
    ensures var r := Run(t, ipos, fuel, cf, m, retType);
            r.0 == Verified ==> forall i :: 0 <= i < |r.1| ==> !Ready(r.1[i])
    decreases fuel
  {
    if fuel > 0 {
      match OpcodeSpec(t, cf, m, ipos, retType)
      case None =>
      case Some(t') =>
        var n := FirstReady(t', ipos, 0);
        if n == -1 {
          NoneReadyMeansSettled(t', ipos);
        } else {
          VerifiedMeansSettled(t', n, fuel - 1, cf, m, retType);
        }
    }
  }

  /** A run that fails names an instruction that has a state and whose verification fails on the table it returns. */
  lemma {:induction false} FailureIsReproducible(t: seq<InstructionInfo>, ipos: int, fuel: nat, cf: ClassFile,
                                                m: MethodInfo, retType: string)
    requires TableOk(m, t) && 0 <= ipos < |t| && t[ipos].state.Some?
    ensures var r := Run(t, ipos, fuel, cf, m, retType);
            r.0.Failed? ==> 0 <= r.0.at < |r.1| && r.1[r.0.at].state.Some? &&
                            OpcodeSpec(r.1, cf, m, r.0.at, retType).None?
    decreases fuel
  {
    if fuel > 0 {
      match OpcodeSpec(t, cf, m, ipos, retType)
      case None =>
      case Some(t') =>
        var n := FirstReady(t', ipos, 0);
        if n != -1 {
          FailureIsReproducible(t', n, fuel - 1, cf, m, retType);
        }
    }
  }

  /**
   * Because mergeState sets the changed bit even when nothing changes, a goto
   * to itself is re-queued after every visit.
   */
  lemma {:induction false} GotoSelfLoops(t: seq<InstructionInfo>, fuel: nat, cf: ClassFile, m: MethodInfo,
                                         retType: string)
    requires m.code == [0xa7, 0, 0] && TableOk(m, t) && t[0].state.Some?
    ensures Run(t, 0, fuel, cf, m, retType).0 == OutOfFuel
    decreases fuel
  {
    if fuel > 0 {
      assert EntryOk(m, t[0]);
      var f := Frame(t[0].state.value, t[0].stksize);
      assert Transfer(cf, m, 0, f, retType) == Next(f, [Succ(0, true)]);
      var t1 := t[0 := InstructionInfo(false, Some(f.slots), f.sz)];
      MergeSelf(f.slots, TypeArrSize(m), cf.lub);
      var t2 := t1[0 := InstructionInfo(true, Some(f.slots), f.sz)];
      assert FollowSpec(t1, m, cf.lub, 0, Succ(0, true)) == Some(t2);
      assert OpcodeSpec(t, cf, m, 0, retType) == Some(t2);
      assert FirstReady(t2, 0, 0) == 0;
      GotoSelfLoops(t2, fuel - 1, cf, m, retType);
    }
  }

  /** The method `goto 0` never verifies: every run of verifyMethod on it runs out of fuel. */
  lemma GotoSelfNeverSettles(cf: ClassFile, m: MethodInfo, initState: seq<string>, retType: string, fuel: nat)
    requires m.code == [0xa7, 0, 0] && |initState| == TypeArrSize(m)
    ensures Run(InitialTable(m, initState), 0, fuel, cf, m, retType).0 == OutOfFuel
  {
    GotoSelfLoops(InitialTable(m, initState), fuel, cf, m, retType);
  }
}
