// The per-opcode transfer function of the bytecode verifier: what one
// instruction demands of the locals-and-stack frame it starts from, the frame
// it leaves behind, and the instructions the result is propagated to.
//
// A frame is the instruction's type array: `maxLocals` local slots followed
// by `maxStack` stack slots, with `sz` stack slots in use. Stack slot k
// counted from the top (k = 1 is the top) is slots[maxLocals + sz - k].

module OpcodeTransfer {
  import opened TypeLattice

  newtype byte = x: int | 0 <= x < 256

  datatype Option<T> = None | Some(value: T)

  /** What the external invoke analysis reports for a method reference: argument tags and return tag. */
  datatype InvokeSig = InvokeSig(args: seq<string>, ret: string)

  /**
   * The parts of the class file the verifier consults. `cpItem` stands for
   * GetCPItemAsString, `analyzeInvoke` for AnalyzeInvoke (index, static flag)
   * and `lub` for the join of two distinct reference types; none of them is
   * part of this model.
   */
  datatype ClassFile = ClassFile(
    constantPoolCount: int,
    cpTag: seq<int>,
    cpItem: int -> string,
    analyzeInvoke: (int, bool) -> InvokeSig,
    lub: (string, string) -> string)

  datatype MethodInfo = MethodInfo(code: seq<byte>, maxLocals: nat, maxStack: nat)

  datatype Frame = Frame(slots: seq<string>, sz: int)

  /** A successor to propagate to; `checked` says whether a failed merge there fails the instruction. */
  datatype Succ = Succ(target: int, checked: bool)

  datatype Step = Fail | Next(post: Frame, succs: seq<Succ>)

  function TypeArrSize(m: MethodInfo): nat {
    m.maxLocals + m.maxStack
  }

  predicate FrameOk(m: MethodInfo, f: Frame) {
    |f.slots| == TypeArrSize(m) && 0 <= f.sz <= m.maxStack
  }

  // ---- frame primitives -------------------------------------------------

  /** The k-th stack slot from the top. */
  function Stk(m: MethodInfo, f: Frame, k: int): string
    requires FrameOk(m, f) && 1 <= k <= f.sz
  {
    f.slots[m.maxLocals + f.sz - k]
  }

  /** The k-th slot from the top holds exactly tag t (compareSimpleTypes succeeds). */
  predicate SlotIs(m: MethodInfo, f: Frame, k: int, t: string)
    requires FrameOk(m, f) && 1 <= k <= f.sz
  {
    CompareSimpleTypes(Stk(m, f, k), t) == 0
  }

  function Push(m: MethodInfo, f: Frame, t: string): (g: Frame)
    requires FrameOk(m, f) && f.sz < m.maxStack
    ensures FrameOk(m, g) && g.sz == f.sz + 1 && Stk(m, g, 1) == t
  {
    Frame(f.slots[m.maxLocals + f.sz := t], f.sz + 1)
  }

  /** Pop one slot, leaving the empty tag "-" behind. */
  function Pop(m: MethodInfo, f: Frame): (g: Frame)
    requires FrameOk(m, f) && f.sz >= 1
    ensures FrameOk(m, g) && g.sz == f.sz - 1
  {
    Frame(f.slots[m.maxLocals + f.sz - 1 := "-"], f.sz - 1)
  }

  function PopN(m: MethodInfo, f: Frame, n: nat): (g: Frame)
    requires FrameOk(m, f) && n <= f.sz
    ensures FrameOk(m, g) && g.sz == f.sz - n
    decreases n
  {
    if n == 0 then f else PopN(m, Pop(m, f), n - 1)
  }

  /** Overwrite the k-th slot from the top. */
  function SetStk(m: MethodInfo, f: Frame, k: int, t: string): (g: Frame)
    requires FrameOk(m, f) && 1 <= k <= f.sz
    ensures FrameOk(m, g) && g.sz == f.sz && Stk(m, g, k) == t
  {
    Frame(f.slots[m.maxLocals + f.sz - k := t], f.sz)
  }

  /** Overwrite slot v of the type array (a local, or a stack slot when v >= maxLocals). */
  function SetSlot(m: MethodInfo, f: Frame, v: int, t: string): (g: Frame)
    requires FrameOk(m, f) && 0 <= v < |f.slots|
    ensures FrameOk(m, g) && g.sz == f.sz && g.slots[v] == t
  {
    Frame(f.slots[v := t], f.sz)
  }

  // ---- operands and the constant pool -----------------------------------

  predicate HasOperands(m: MethodInfo, ipos: int, n: nat) {
    0 <= ipos && ipos + n < |m.code|
  }

  /** The one-byte inline operand. */
  function U1(m: MethodInfo, ipos: int): (v: int)
    requires HasOperands(m, ipos, 1)
    ensures 0 <= v < 256
  {
    m.code[ipos + 1] as int
  }

  /** The two-byte inline operand, high byte first. */
  function U2(m: MethodInfo, ipos: int): (v: int)
    requires HasOperands(m, ipos, 2)
    ensures 0 <= v < 65536
  {
    (m.code[ipos + 1] as int) * 256 + m.code[ipos + 2] as int
  }

  /** The tag of a constant-pool entry; a read past the tag table yields the invalid tag 0. */
  function TagAt(cf: ClassFile, i: int): int {
    if 0 <= i < |cf.cpTag| then cf.cpTag[i] else 0
  }

  /** The text after the first ':' of a constant-pool item: a field's type descriptor. */
  function AfterColon(s: string): (r: Option<string>)
    ensures r.Some? ==> |r.value| < |s|
  {
    if |s| == 0 then None
    else if s[0] == ':' then Some(s[1..])
    else AfterColon(s[1..])
  }

  /** Slots an invoke pops: two for a long or double argument, one otherwise. */
  function ArgSlots(args: seq<string>): nat {
    if args == [] then 0
    else (if args[0] == "Dd" || args[0] == "Ll" then 2 else 1) + ArgSlots(args[1..])
  }

  // ---- loads and stores -------------------------------------------------

  datatype Kind = IntK | LongK | FloatK | DoubleK | RefK

  function Width(k: Kind): nat {
    if k == LongK || k == DoubleK then 2 else 1
  }

  /** The local holds what a load of kind k expects. */
  predicate LocalMatches(t: string, k: Kind) {
    match k
    case IntK => CompareSimpleTypes(t, "I") == 0
    case LongK => CompareSimpleTypes(t, "Ll") == 0
    case FloatK => CompareSimpleTypes(t, "F") == 0
    case DoubleK => CompareSimpleTypes(t, "Dd") == 0
    case RefK => RefCompatible(t, "A")
  }

  function PushLoaded(m: MethodInfo, f: Frame, k: Kind, t: string): (g: Frame)
    requires FrameOk(m, f) && f.sz + Width(k) <= m.maxStack
    ensures FrameOk(m, g) && g.sz == f.sz + Width(k)
  {
    match k
    case IntK => Push(m, f, "I")
    case LongK => Push(m, Push(m, f, "l"), "L")
    case FloatK => Push(m, f, "F")
    case DoubleK => Push(m, Push(m, f, "d"), "D")
    case RefK => Push(m, f, t)
  }

  /** iload, lload, fload, dload, aload and their _n forms. */
  function Load(m: MethodInfo, f: Frame, varnum: int, k: Kind, next: int): (s: Step)
    requires FrameOk(m, f) && 0 <= varnum
    ensures s.Next? ==> FrameOk(m, s.post) && s.succs == [Succ(next, true)]
  {
    if CheckStackOverflow(f.sz, Width(k), m.maxStack) == -1
       || CheckInLocalsRange(varnum, m.maxLocals) == -1
       || !LocalMatches(f.slots[varnum], k)
    then Fail
    else Next(PushLoaded(m, f, k, f.slots[varnum]), [Succ(next, true)])
  }

  /** The top of the stack holds what a store of kind k expects. */
  predicate StoredMatches(m: MethodInfo, f: Frame, k: Kind)
    requires FrameOk(m, f) && Width(k) <= f.sz
  {
    match k
    case IntK => SlotIs(m, f, 1, "I")
    case LongK => SlotIs(m, f, 1, "L") && SlotIs(m, f, 2, "l")
    case FloatK => SlotIs(m, f, 1, "F")
    case DoubleK => SlotIs(m, f, 1, "D") && SlotIs(m, f, 2, "d")
    case RefK => RefCompatible(Stk(m, f, 1), "A")
  }

  function StoredTag(k: Kind): string {
    match k
    case IntK => "I"
    case LongK => "Ll"
    case FloatK => "F"
    case DoubleK => "Dd"
    case RefK => "A"
  }

  /**
   * istore, lstore, fstore, dstore, astore and their _n forms. Only the forms
   * with an inline index and istore_n check the local index; the others write
   * slot varnum of the type array whatever maxLocals is.
   */
  function Store(m: MethodInfo, f: Frame, varnum: int, k: Kind, rangeChecked: bool, next: int): (s: Step)
    requires FrameOk(m, f) && 0 <= varnum
    ensures s.Next? ==> FrameOk(m, s.post) && s.succs == [Succ(next, true)]
  {
    if CheckStackUnderflow(f.sz, Width(k)) == -1
       || (rangeChecked && CheckInLocalsRange(varnum, m.maxLocals) == -1)
       || !StoredMatches(m, f, k)
    then Fail
    else if varnum >= |f.slots| then Fail // a write past the type array
    else if k == RefK then Next(Pop(m, SetSlot(m, f, varnum, Stk(m, f, 1))), [Succ(next, true)])
    else Next(SetSlot(m, PopN(m, f, Width(k)), varnum, StoredTag(k)), [Succ(next, true)])
  }

  // ---- opcode groups ----------------------------------------------------

  /** nop, constants, bipush, sipush, ldc, ldc_w, ldc2_w and the loads (0x00-0x2d). */
  function TransferConstLoad(cf: ClassFile, m: MethodInfo, ipos: int, f: Frame): (s: Step)
    requires FrameOk(m, f) && 0 <= ipos < |m.code| && m.code[ipos] <= 0x2d
    ensures s.Next? ==> FrameOk(m, s.post) && |s.succs| <= 2
  {
    var op := m.code[ipos] as int;
    var over1 := CheckStackOverflow(f.sz, 1, m.maxStack) == -1;
    var over2 := CheckStackOverflow(f.sz, 2, m.maxStack) == -1;
    if op == 0x00 then Next(f, [Succ(ipos + 1, true)])
    else if op == 0x01 then (if over1 then Fail else Next(Push(m, f, "N"), [Succ(ipos + 1, true)]))
    else if op <= 0x08 then (if over1 then Fail else Next(Push(m, f, "I"), [Succ(ipos + 1, true)]))
    else if op <= 0x0a then (if over2 then Fail else Next(Push(m, Push(m, f, "l"), "L"), [Succ(ipos + 1, true)]))
    else if op <= 0x0d then (if over1 then Fail else Next(Push(m, f, "F"), [Succ(ipos + 1, true)]))
    else if op <= 0x0f then (if over2 then Fail else Next(Push(m, Push(m, f, "d"), "D"), [Succ(ipos + 1, true)]))
    else if op == 0x10 then
      (if !HasOperands(m, ipos, 1) || over1 then Fail else Next(Push(m, f, "I"), [Succ(ipos + 2, true)]))
    else if op == 0x11 then
      (if !HasOperands(m, ipos, 2) || over1 then Fail else Next(Push(m, f, "I"), [Succ(ipos + 3, true)]))
    else if op == 0x12 || op == 0x13 then
      // ldc, ldc_w: an int, float or string constant
      var width := if op == 0x12 then 1 else 2;
      if !HasOperands(m, ipos, width) then Fail
      else
        var index := if op == 0x12 then U1(m, ipos) else U2(m, ipos);
        var tag := TagAt(cf, index);
        if CheckInCPRange(cf.constantPoolCount, index) == -1 || over1 then Fail
        else if tag == 3 then Next(Push(m, f, "I"), [Succ(ipos + 1 + width, true)])
        else if tag == 4 then Next(Push(m, f, "F"), [Succ(ipos + 1 + width, true)])
        else if tag == 8 then Next(Push(m, f, "ALjava/lang/String"), [Succ(ipos + 1 + width, true)])
        else Fail
    else if op == 0x14 then
      // ldc2_w: a long or double constant; the merge result is not looked at
      if !HasOperands(m, ipos, 2) then Fail
      else
        var index := U2(m, ipos);
        var tag := TagAt(cf, index);
        if CheckInCPRange(cf.constantPoolCount, index) == -1 || over2 then Fail
        else if tag == 5 then Next(Push(m, Push(m, f, "l"), "L"), [Succ(ipos + 3, false)])
        else if tag == 6 then Next(Push(m, Push(m, f, "d"), "D"), [Succ(ipos + 3, false)])
        else Fail
    else if op <= 0x19 then
      // iload, lload, fload, dload, aload with an inline index
      if !HasOperands(m, ipos, 1) then Fail
      else
        var k := if op == 0x15 then IntK else if op == 0x16 then LongK else if op == 0x17 then FloatK
                 else if op == 0x18 then DoubleK else RefK;
        Load(m, f, U1(m, ipos), k, ipos + 2)
    else if op <= 0x1d then Load(m, f, op - 0x1a, IntK, ipos + 1)
    else if op <= 0x21 then Load(m, f, op - 0x1e, LongK, ipos + 1)
    else if op <= 0x25 then Load(m, f, op - 0x22, FloatK, ipos + 1)
    else if op <= 0x29 then Load(m, f, op - 0x26, DoubleK, ipos + 1)
    else Load(m, f, op - 0x2a, RefK, ipos + 1)
  }

  /** iaload, laload, faload, daload, aaload, baload, caload, saload (0x2e-0x35). */
  function TransferArrayLoad(m: MethodInfo, ipos: int, f: Frame): (s: Step)
    requires FrameOk(m, f) && 0 <= ipos < |m.code| && 0x2e <= m.code[ipos] <= 0x35
    ensures s.Next? ==> FrameOk(m, s.post) && |s.succs| <= 2
  {
    var op := m.code[ipos] as int;
    var arr := if op == 0x2f then "A[Ll" else if op == 0x30 then "A[F" else if op == 0x31 then "A[Dd"
               else if op == 0x32 then "A[A" else "A[I";
    if CheckStackUnderflow(f.sz, 2) == -1 || !RefCompatible(Stk(m, f, 1), arr) || !SlotIs(m, f, 2, "I") then Fail
    else if op == 0x2f then Next(SetStk(m, SetStk(m, f, 1, "L"), 2, "l"), [Succ(ipos + 1, true)])
    else if op == 0x30 then Next(SetStk(m, Pop(m, f), 1, "F"), [Succ(ipos + 1, true)])
    else if op == 0x31 then Next(SetStk(m, SetStk(m, f, 1, "D"), 2, "d"), [Succ(ipos + 1, true)])
    else if op == 0x32 then
      // the element type is the array type without its leading "A["
      var top := Stk(m, f, 1);
      if |top| < 2 then Fail
      else Next(Pop(m, SetStk(m, f, 2, top[2..])), [Succ(ipos + 1, true)])
    else Next(Pop(m, f), [Succ(ipos + 1, true)])
  }

  /** istore .. astore_3 (0x36-0x4e). */
  function TransferStore(m: MethodInfo, ipos: int, f: Frame): (s: Step)
    requires FrameOk(m, f) && 0 <= ipos < |m.code| && 0x36 <= m.code[ipos] <= 0x4e
    ensures s.Next? ==> FrameOk(m, s.post) && |s.succs| <= 2
  {
    var op := m.code[ipos] as int;
    if op <= 0x3a then
      if !HasOperands(m, ipos, 1) then Fail
      else
        var k := if op == 0x36 then IntK else if op == 0x37 then LongK else if op == 0x38 then FloatK
                 else if op == 0x39 then DoubleK else RefK;
        Store(m, f, U1(m, ipos), k, true, ipos + 2)
    else if op <= 0x3e then Store(m, f, op - 0x3b, IntK, true, ipos + 1)
    else if op <= 0x42 then Store(m, f, op - 0x3f, LongK, false, ipos + 1)
    else if op <= 0x46 then Store(m, f, op - 0x43, FloatK, false, ipos + 1)
    else if op <= 0x4a then Store(m, f, op - 0x47, DoubleK, false, ipos + 1)
    else Store(m, f, op - 0x4b, RefK, false, ipos + 1)
  }

  /** iastore, lastore, fastore, dastore, aastore, bastore, castore, sastore (0x4f-0x56). */
  function TransferArrayStore(m: MethodInfo, ipos: int, f: Frame): (s: Step)
    requires FrameOk(m, f) && 0 <= ipos < |m.code| && 0x4f <= m.code[ipos] <= 0x56
    ensures s.Next? ==> FrameOk(m, s.post) && |s.succs| <= 2
  {
    var op := m.code[ipos] as int;
    var next := [Succ(ipos + 1, true)];
    if op == 0x50 then
      if CheckStackUnderflow(f.sz, 4) == -1 || !RefCompatible(Stk(m, f, 1), "A[Ll") || !SlotIs(m, f, 2, "I")
         || !SlotIs(m, f, 3, "L") || !SlotIs(m, f, 4, "l") then Fail
      else Next(PopN(m, f, 4), next)
    else if op == 0x52 then
      if CheckStackUnderflow(f.sz, 4) == -1 || !RefCompatible(Stk(m, f, 1), "A[Dd") || !SlotIs(m, f, 2, "I")
         || !SlotIs(m, f, 3, "D") || !SlotIs(m, f, 4, "d") then Fail
      else Next(PopN(m, f, 4), next)
    else if op == 0x51 then
      if CheckStackUnderflow(f.sz, 3) == -1 || !RefCompatible(Stk(m, f, 1), "A[F") || !SlotIs(m, f, 2, "I")
         || !SlotIs(m, f, 3, "F") then Fail
      else Next(PopN(m, f, 3), next)
    else if op == 0x53 then
      if CheckStackUnderflow(f.sz, 3) == -1 || !RefCompatible(Stk(m, f, 1), "A[A") || !SlotIs(m, f, 2, "I") then Fail
      else Next(PopN(m, f, 3), next)
    else
      if CheckStackUnderflow(f.sz, 3) == -1 || !RefCompatible(Stk(m, f, 1), "A[I") || !SlotIs(m, f, 2, "I")
         || !SlotIs(m, f, 3, "I") then Fail
      else Next(PopN(m, f, 3), next)
  }

  /** pop, pop2, dup, dup_x1, dup_x2, dup2, dup2_x1, dup2_x2, swap (0x57-0x5f). */
  function TransferStackOp(m: MethodInfo, ipos: int, f: Frame): (s: Step)
    requires FrameOk(m, f) && 0 <= ipos < |m.code| && 0x57 <= m.code[ipos] <= 0x5f
    ensures s.Next? ==> FrameOk(m, s.post) && |s.succs| <= 2
  {
    var op := m.code[ipos] as int;
    var next := [Succ(ipos + 1, true)];
    if op == 0x57 then (if CheckStackUnderflow(f.sz, 1) == -1 then Fail else Next(Pop(m, f), next))
    else if op == 0x58 then (if CheckStackUnderflow(f.sz, 2) == -1 then Fail else Next(PopN(m, f, 2), next))
    else if op <= 0x5b then
      // dup, dup_x1, dup_x2: the new top copies slot 1, 2 or 3 from the top
      var depth := op - 0x58;
      if CheckStackUnderflow(f.sz, depth) == -1 || CheckStackOverflow(f.sz, 1, m.maxStack) == -1 then Fail
      else Next(Push(m, f, Stk(m, f, depth)), next)
    else if op <= 0x5e then
      // dup2, dup2_x1, dup2_x2: two pushes, each copying the slot depth below the new top
      var depth := op - 0x5a;
      if CheckStackUnderflow(f.sz, depth) == -1 || CheckStackOverflow(f.sz, 2, m.maxStack) == -1 then Fail
      else
        var g := Push(m, f, Stk(m, f, depth));
        Next(Push(m, g, Stk(m, g, depth)), next)
    else
      if CheckStackUnderflow(f.sz, 2) == -1 then Fail
      else Next(SetStk(m, SetStk(m, f, 1, Stk(m, f, 2)), 2, Stk(m, f, 1)), next)
  }

  /** The binary arithmetic families, the negations and iinc (0x60-0x84). */
  function TransferArith(m: MethodInfo, ipos: int, f: Frame): (s: Step)
    requires FrameOk(m, f) && 0 <= ipos < |m.code| && 0x60 <= m.code[ipos] <= 0x84
    ensures s.Next? ==> FrameOk(m, s.post) && |s.succs| <= 2
  {
    var op := m.code[ipos] as int;
    var next := [Succ(ipos + 1, true)];
    if op == 0x84 then
      // iinc: only the local index is checked; the merge result is not looked at
      if !HasOperands(m, ipos, 1) || CheckInLocalsRange(U1(m, ipos), m.maxLocals) == -1 then Fail
      else Next(f, [Succ(ipos + 3, false)])
    else if op == 0x74 then
      if CheckStackUnderflow(f.sz, 1) == -1 || !SlotIs(m, f, 1, "I") then Fail else Next(f, next)
    else if op == 0x75 then
      if CheckStackUnderflow(f.sz, 2) == -1 || !SlotIs(m, f, 1, "L") || !SlotIs(m, f, 2, "l") then Fail
      else Next(f, next)
    else if op == 0x76 then
      if CheckStackUnderflow(f.sz, 1) == -1 || !SlotIs(m, f, 1, "F") then Fail else Next(f, next)
    else if op == 0x77 then
      if CheckStackUnderflow(f.sz, 2) == -1 || !SlotIs(m, f, 1, "D") || !SlotIs(m, f, 2, "d") then Fail
      else Next(f, next)
    else if op in {0x60, 0x64, 0x68, 0x6c, 0x70, 0x78, 0x7a, 0x7c, 0x7e, 0x80, 0x82} then
      if CheckStackUnderflow(f.sz, 2) == -1 || !SlotIs(m, f, 1, "I") || !SlotIs(m, f, 2, "I") then Fail
      else Next(Pop(m, f), next)
    else if op in {0x61, 0x65, 0x69, 0x6d, 0x71, 0x79, 0x7b, 0x7d, 0x7f, 0x81, 0x83} then
      if CheckStackUnderflow(f.sz, 4) == -1 || !SlotIs(m, f, 1, "L") || !SlotIs(m, f, 2, "l")
         || !SlotIs(m, f, 3, "L") || !SlotIs(m, f, 4, "l") then Fail
      else Next(PopN(m, f, 2), next)
    else if op in {0x62, 0x66, 0x6a, 0x6e, 0x72} then
      if CheckStackUnderflow(f.sz, 2) == -1 || !SlotIs(m, f, 1, "F") || !SlotIs(m, f, 2, "F") then Fail
      else Next(Pop(m, f), next)
    else if op in {0x63, 0x67, 0x6b, 0x6f, 0x73} then
      if CheckStackUnderflow(f.sz, 4) == -1 || !SlotIs(m, f, 1, "D") || !SlotIs(m, f, 2, "d")
         || !SlotIs(m, f, 3, "D") || !SlotIs(m, f, 4, "d") then Fail
      else Next(PopN(m, f, 2), next)
    else Next(f, []) // no case in the switch
  }

  /** The l2i case: pops the long to an int, then runs into l2f's checks. */
  function L2I(m: MethodInfo, ipos: int, f: Frame): (s: Step)
    requires FrameOk(m, f)
    ensures s.Next? ==> FrameOk(m, s.post) && |s.succs| <= 2
  {
    if CheckStackUnderflow(f.sz, 2) == -1 || !SlotIs(m, f, 1, "L") || !SlotIs(m, f, 2, "l") then Fail
    else L2F(m, ipos, SetStk(m, Pop(m, f), 1, "I"))
  }

  /** The l2f case: pops the long to a float, then runs into l2d's checks. */
  function L2F(m: MethodInfo, ipos: int, f: Frame): (s: Step)
    requires FrameOk(m, f)
    ensures s.Next? ==> FrameOk(m, s.post) && |s.succs| <= 2
  {
    if CheckStackUnderflow(f.sz, 2) == -1 || !SlotIs(m, f, 1, "L") || !SlotIs(m, f, 2, "l") then Fail
    else L2D(m, ipos, SetStk(m, Pop(m, f), 1, "F"))
  }

  /** The l2d case: retags the long as a double, then runs into f2i's checks. */
  function L2D(m: MethodInfo, ipos: int, f: Frame): (s: Step)
    requires FrameOk(m, f)
    ensures s.Next? ==> FrameOk(m, s.post) && |s.succs| <= 2
  {
    if CheckStackUnderflow(f.sz, 2) == -1 || !SlotIs(m, f, 1, "L") || !SlotIs(m, f, 2, "l") then Fail
    else F2I(m, ipos, SetStk(m, SetStk(m, f, 1, "D"), 2, "d"))
  }

  /** The f2i case. */
  function F2I(m: MethodInfo, ipos: int, f: Frame): (s: Step)
    requires FrameOk(m, f)
    ensures s.Next? ==> FrameOk(m, s.post) && |s.succs| <= 2
  {
    if CheckStackUnderflow(f.sz, 1) == -1 || !SlotIs(m, f, 1, "F") then Fail
    else Next(SetStk(m, f, 1, "I"), [Succ(ipos + 1, true)])
  }

  /** The conversions and comparisons (0x85-0x98). */
  function TransferConvert(m: MethodInfo, ipos: int, f: Frame): (s: Step)
    requires FrameOk(m, f) && 0 <= ipos < |m.code| && 0x85 <= m.code[ipos] <= 0x98
    ensures s.Next? ==> FrameOk(m, s.post) && |s.succs| <= 2
  {
    var op := m.code[ipos] as int;
    var next := [Succ(ipos + 1, true)];
    var under1 := CheckStackUnderflow(f.sz, 1) == -1;
    var under2 := CheckStackUnderflow(f.sz, 2) == -1;
    var under4 := CheckStackUnderflow(f.sz, 4) == -1;
    var over2 := CheckStackOverflow(f.sz, 2, m.maxStack) == -1;
    if op == 0x85 then
      if under1 || over2 || !SlotIs(m, f, 1, "I") then Fail else Next(Push(m, SetStk(m, f, 1, "l"), "L"), next)
    else if op == 0x86 then
      if under1 || !SlotIs(m, f, 1, "I") then Fail else Next(SetStk(m, f, 1, "F"), next)
    else if op == 0x87 then
      if under1 || over2 || !SlotIs(m, f, 1, "I") then Fail else Next(Push(m, SetStk(m, f, 1, "d"), "D"), next)
    else if op == 0x88 then L2I(m, ipos, f)
    else if op == 0x89 then L2F(m, ipos, f)
    else if op == 0x8a then L2D(m, ipos, f)
    else if op == 0x8b then F2I(m, ipos, f)
    else if op == 0x8c then
      if under1 || over2 || !SlotIs(m, f, 1, "F") then Fail else Next(Push(m, SetStk(m, f, 1, "l"), "L"), next)
    else if op == 0x8d then
      if under1 || over2 || !SlotIs(m, f, 1, "F") then Fail else Next(Push(m, SetStk(m, f, 1, "d"), "D"), next)
    else if op <= 0x90 then
      // d2i, d2l, d2f
      if under2 || !SlotIs(m, f, 1, "D") || !SlotIs(m, f, 2, "d") then Fail
      else if op == 0x8e then Next(SetStk(m, Pop(m, f), 1, "I"), next)
      else if op == 0x8f then Next(SetStk(m, SetStk(m, f, 1, "L"), 2, "l"), next)
      else Next(SetStk(m, Pop(m, f), 1, "F"), next)
    else if op <= 0x93 then
      // i2b, i2c, i2s
      if under1 || !SlotIs(m, f, 1, "I") then Fail else Next(f, next)
    else if op == 0x94 then
      if under4 || !SlotIs(m, f, 1, "L") || !SlotIs(m, f, 2, "l") || !SlotIs(m, f, 3, "L") || !SlotIs(m, f, 4, "l")
      then Fail
      else Next(SetStk(m, PopN(m, f, 3), 1, "I"), next)
    else if op <= 0x96 then
      if under2 || !SlotIs(m, f, 1, "F") || !SlotIs(m, f, 2, "F") then Fail
      else Next(SetStk(m, Pop(m, f), 1, "I"), next)
    else
      if under4 || !SlotIs(m, f, 1, "D") || !SlotIs(m, f, 2, "d") || !SlotIs(m, f, 3, "D") || !SlotIs(m, f, 4, "d")
      then Fail
      else Next(SetStk(m, PopN(m, f, 3), 1, "I"), next)
  }

  /** Conditional branches, goto, jsr, ret and the returns (0x99-0xb1). */
  function TransferBranch(m: MethodInfo, ipos: int, f: Frame, retType: string): (s: Step)
    requires FrameOk(m, f) && 0 <= ipos < |m.code| && 0x99 <= m.code[ipos] <= 0xb1
    ensures s.Next? ==> FrameOk(m, s.post) && |s.succs| <= 2
  {
    var op := m.code[ipos] as int;
    if op <= 0xa7 then
      // the two-byte operand is the absolute target position
      if !HasOperands(m, ipos, 2) then Fail
      else
        var target := U2(m, ipos);
        var branch := [Succ(ipos + 1, true), Succ(target, true)];
        if op <= 0x9e then
          if CheckStackUnderflow(f.sz, 1) == -1 || !SlotIs(m, f, 1, "I")
             || CheckJumpPosition(target, |m.code|) == -1 then Fail
          else Next(Pop(m, f), branch)
        else if op <= 0xa4 then
          if CheckStackUnderflow(f.sz, 2) == -1 || !SlotIs(m, f, 1, "I") || !SlotIs(m, f, 2, "I")
             || CheckJumpPosition(target, |m.code|) == -1 then Fail
          else Next(PopN(m, f, 2), branch)
        else if op <= 0xa6 then
          if CheckStackUnderflow(f.sz, 2) == -1 || !RefCompatible(Stk(m, f, 1), "A")
             || !RefCompatible(Stk(m, f, 2), "A") || CheckJumpPosition(target, |m.code|) == -1 then Fail
          else Next(PopN(m, f, 2), branch)
        else
          if CheckJumpPosition(target, |m.code|) == -1 then Fail else Next(f, [Succ(target, true)])
    else if op == 0xa8 then Next(f, [Succ(ipos + 3, true)])
    else if op == 0xac then
      if CheckStackUnderflow(f.sz, 1) == -1 || CompareSimpleTypes(retType, "I") == -1 || !SlotIs(m, f, 1, "I")
      then Fail else Next(f, [])
    else if op == 0xad then
      if CheckStackUnderflow(f.sz, 2) == -1 || CompareSimpleTypes(retType, "Ll") == -1
         || !SlotIs(m, f, 1, "L") || !SlotIs(m, f, 2, "l") then Fail
      else Next(f, [])
    else if op == 0xae then
      if CheckStackUnderflow(f.sz, 1) == -1 || CompareSimpleTypes(retType, "F") == -1 || !SlotIs(m, f, 1, "F")
      then Fail else Next(f, [])
    else if op == 0xaf then
      if CheckStackUnderflow(f.sz, 2) == -1 || CompareSimpleTypes(retType, "Dd") == -1
         || !SlotIs(m, f, 1, "D") || !SlotIs(m, f, 2, "d") then Fail
      else Next(f, [])
    else if op == 0xb0 then
      if CheckStackUnderflow(f.sz, 1) == -1 || !RefCompatible(retType, "A") || !RefCompatible(Stk(m, f, 1), retType)
      then Fail else Next(f, [])
    else if op == 0xb1 then
      if CompareSimpleTypes(retType, "-") == -1 then Fail else Next(f, [])
    else Next(f, []) // ret, and the switches that have no case
  }

  /** Push a field value of descriptor desc: a long or double takes two slots. */
  function PushField(m: MethodInfo, f: Frame, desc: string): (r: Option<Frame>)
    requires FrameOk(m, f)
    ensures r.Some? ==> FrameOk(m, r.value)
  {
    var w := if desc == "D" || desc == "J" then 2 else 1;
    if f.sz + w > m.maxStack then None // a push past the type array
    else if desc == "D" then Some(Push(m, Push(m, f, "d"), "D"))
    else if desc == "J" then Some(Push(m, Push(m, f, "l"), "L"))
    else Some(Push(m, f, desc))
  }

  /** Pop a field value of descriptor desc after checking its tags. */
  function PopField(m: MethodInfo, f: Frame, desc: string): (r: Option<Frame>)
    requires FrameOk(m, f)
    ensures r.Some? ==> FrameOk(m, r.value)
  {
    if desc == "D" || desc == "J" then
      if f.sz < 2 then None // a read below the stack
      else if CompareSimpleTypes(if desc == "D" then "D" else "L", Stk(m, f, 1)) == -1 then None
      else if CompareSimpleTypes(if desc == "D" then "d" else "l", Stk(m, f, 2)) == -1 then None
      else Some(PopN(m, f, 2))
    else
      if f.sz < 1 then None
      else if CompareSimpleTypes(desc, Stk(m, f, 1)) == -1 then None
      else Some(Pop(m, f))
  }

  /** Push what an invoked method returns: nothing for void, two slots for a long or double. */
  function PushReturn(m: MethodInfo, f: Frame, ret: string): (r: Option<Frame>)
    requires FrameOk(m, f)
    ensures r.Some? ==> FrameOk(m, r.value)
  {
    var w := if ret == "-" then 0 else if ret == "Dd" || ret == "Ll" then 2 else 1;
    if f.sz + w > m.maxStack then None
    else if ret == "-" then Some(f)
    else if ret == "Dd" then Some(Push(m, Push(m, f, "d"), "D"))
    else if ret == "Ll" then Some(Push(m, Push(m, f, "l"), "L"))
    else Some(Push(m, f, ret))
  }

  /** putstatic and putfield: the value's slots, and for putfield the reference, are popped. */
  function TransferPut(cf: ClassFile, m: MethodInfo, ipos: int, f: Frame): (s: Step)
    requires FrameOk(m, f) && HasOperands(m, ipos, 2) && (m.code[ipos] == 0xb3 || m.code[ipos] == 0xb5)
    ensures s.Next? ==> FrameOk(m, s.post) && |s.succs| <= 2
  {
    match AfterColon(cf.cpItem(U2(m, ipos)))
    case None => Fail
    case Some(desc) =>
      match PopField(m, f, desc)
      case None => Fail
      case Some(g) =>
        if m.code[ipos] == 0xb3 then Next(g, [Succ(ipos + 3, true)])
        else if g.sz < 1 then Fail
        else Next(Pop(m, g), [Succ(ipos + 3, true)])
  }

  /** invokevirtual .. invokedynamic: the arguments are popped and the return value pushed; the merge result is not looked at. */
  function TransferInvoke(cf: ClassFile, m: MethodInfo, ipos: int, f: Frame): (s: Step)
    requires FrameOk(m, f) && HasOperands(m, ipos, 2) && 0xb6 <= m.code[ipos] <= 0xba
    ensures s.Next? ==> FrameOk(m, s.post) && |s.succs| <= 2
  {
    var op := m.code[ipos] as int;
    var sig := cf.analyzeInvoke(U2(m, ipos), op == 0xb8 || op == 0xba);
    var n := ArgSlots(sig.args);
    if n > f.sz then Fail // a pop below the stack
    else
      match PushReturn(m, PopN(m, f, n), sig.ret)
      case None => Fail
      case Some(g) => Next(g, [Succ(if op == 0xb9 || op == 0xba then ipos + 5 else ipos + 3, false)])
  }

  /** Field access, invocation, object creation, arrays, casts, monitors, ifnull (0xb2 and up). */
  function TransferObject(cf: ClassFile, m: MethodInfo, ipos: int, f: Frame): (s: Step)
    requires FrameOk(m, f) && 0 <= ipos < |m.code| && 0xb2 <= m.code[ipos]
    ensures s.Next? ==> FrameOk(m, s.post) && |s.succs| <= 2
  {
    var op := m.code[ipos] as int;
    if op == 0xbc then
      // newarray: every case of the element-type switch runs into the failing default
      Fail
    else if op in {0xbe, 0xc2, 0xc3} then
      if CheckStackUnderflow(f.sz, 1) == -1 then Fail
      else if op == 0xbe then
        if !RefCompatible(Stk(m, f, 1), "A[") then Fail else Next(SetStk(m, f, 1, "I"), [Succ(ipos + 1, true)])
      else
        if !RefCompatible(Stk(m, f, 1), "A") then Fail else Next(Pop(m, f), [Succ(ipos + 1, true)])
    else if op == 0xc9 then Next(f, [Succ(ipos + 5, true)])
    else if !(op in {0xb2, 0xb3, 0xb4, 0xb5, 0xb6, 0xb7, 0xb8, 0xb9, 0xba, 0xbb, 0xbd, 0xc0, 0xc1, 0xc5, 0xc6, 0xc7})
    then Next(f, []) // no case in the switch
    else if !HasOperands(m, ipos, 2) then Fail
    else
      var index := U2(m, ipos);
      if op == 0xb2 || op == 0xb4 then
        // getstatic, getfield: no overflow check before the push
        var popped := op == 0xb4;
        if popped && CheckStackUnderflow(f.sz, 1) == -1 then Fail
        else if CheckInCPRange(cf.constantPoolCount, index) == -1 then Fail
        else if popped && !RefCompatible(Stk(m, f, 1), "A") then Fail
        else if CheckValidConstantType(TagAt(cf, index)) == -1 then Fail
        else
          match AfterColon(cf.cpItem(index))
          case None => Fail
          case Some(desc) =>
            var g := if popped then Pop(m, f) else f;
            match PushField(m, g, desc)
            case None => Fail
            case Some(h) => Next(h, [Succ(ipos + 3, true)])
      else if op == 0xb3 || op == 0xb5 then TransferPut(cf, m, ipos, f)
      else if op <= 0xba then TransferInvoke(cf, m, ipos, f)
      else if op == 0xbb then
        if CheckStackOverflow(f.sz, 1, m.maxStack) == -1 || CheckInCPRange(cf.constantPoolCount, index) == -1
           || CheckCPType(TagAt(cf, index), 7) == -1 then Fail
        else Next(Push(m, f, "AL" + cf.cpItem(index)), [Succ(ipos + 3, true)])
      else if op == 0xbd then
        if CheckStackUnderflow(f.sz, 1) == -1 || !SlotIs(m, f, 1, "I") then Fail
        else Next(SetStk(m, f, 1, "A[" + cf.cpItem(index)), [Succ(ipos + 3, true)])
      else if op == 0xc0 then
        if CheckStackUnderflow(f.sz, 1) == -1 || CheckInCPRange(cf.constantPoolCount, index) == -1
           || !RefCompatible(Stk(m, f, 1), "A") then Fail
        else Next(f, [Succ(ipos + 3, true)])
      else if op == 0xc1 then
        if CheckStackUnderflow(f.sz, 1) == -1 || CheckInCPRange(cf.constantPoolCount, index) == -1
           || !RefCompatible(Stk(m, f, 1), "AL") || CheckCPType(TagAt(cf, index), 7) == -1 then Fail
        else Next(Push(m, Pop(m, f), "I"), [Succ(ipos + 3, true)])
      else if op == 0xc5 then
        // multianewarray: no checks, no change to the frame
        if !HasOperands(m, ipos, 3) then Fail else Next(f, [Succ(ipos + 4, true)])
      else
        // ifnull, ifnonnull
        if CheckStackUnderflow(f.sz, 1) == -1 || !RefCompatible(Stk(m, f, 1), "A")
           || CheckJumpPosition(index, |m.code|) == -1 then Fail
        else Next(Pop(m, f), [Succ(ipos + 1, true), Succ(index, true)])
  }

  // ---- the unchecked pops of putstatic, putfield and invoke* ----------------

  /**
   * A type array whose stack height may have run below zero. The source
   * pops for putstatic, putfield and invoke* without an underflow check;
   * since the stack is addressed from the end of the locals, heights down
   * to -maxLocals read and overwrite the last locals.
   */
  predicate LooseOk(m: MethodInfo, f: Frame) {
    |f.slots| == TypeArrSize(m) && -(m.maxLocals as int) <= f.sz <= m.maxStack
  }

  /** n pops as written: each overwrites the slot below the height with "-"; None once a pop would leave the type array. */
  function LoosePop(m: MethodInfo, f: Frame, n: nat): (r: Option<Frame>)
    requires LooseOk(m, f)
    ensures r.None? <==> f.sz - n < -(m.maxLocals as int)
    ensures r.Some? ==> LooseOk(m, r.value) && r.value.sz == f.sz - n
    decreases n
  {
    if n == 0 then Some(f)
    else if f.sz - 1 < -(m.maxLocals as int) then None
    else LoosePop(m, Frame(f.slots[m.maxLocals + f.sz - 1 := "-"], f.sz - 1), n - 1)
  }

  /** A push as written; None when it would write past the type array. */
  function LoosePush(m: MethodInfo, f: Frame, t: string): (r: Option<Frame>)
    requires LooseOk(m, f)
    ensures r.Some? ==> LooseOk(m, r.value) && r.value.sz == f.sz + 1 && r.value.slots[m.maxLocals + f.sz] == t
  {
    if f.sz >= m.maxStack then None else Some(Frame(f.slots[m.maxLocals + f.sz := t], f.sz + 1))
  }

  /** The return value of an invoke pushed as written. */
  function LoosePushReturn(m: MethodInfo, f: Frame, ret: string): (r: Option<Frame>)
    requires LooseOk(m, f)
    ensures r.Some? ==> LooseOk(m, r.value)
  {
    if ret == "-" then Some(f)
    else if ret == "Dd" || ret == "Ll" then
      match LoosePush(m, f, if ret == "Dd" then "d" else "l")
      case None => None
      case Some(g) => LoosePush(m, g, if ret == "Dd" then "D" else "L")
    else LoosePush(m, f, ret)
  }

  /** invoke* as the source writes it: the arguments are popped with no underflow check. */
  function InvokeAsWritten(cf: ClassFile, m: MethodInfo, ipos: int, f: Frame): (s: Step)
    requires LooseOk(m, f) && HasOperands(m, ipos, 2) && 0xb6 <= m.code[ipos] <= 0xba
    ensures s.Next? ==> LooseOk(m, s.post) && |s.succs| == 1
  {
    var op := m.code[ipos] as int;
    var sig := cf.analyzeInvoke(U2(m, ipos), op == 0xb8 || op == 0xba);
    match LoosePop(m, f, ArgSlots(sig.args))
    case None => Fail // below the type array: not modelled
    case Some(g) =>
      match LoosePushReturn(m, g, sig.ret)
      case None => Fail
      case Some(h) => Next(h, [Succ(if op == 0xb9 || op == 0xba then ipos + 5 else ipos + 3, false)])
  }

  /** putstatic and putfield as the source writes them: the value's tags are read and popped, and putfield pops the reference, all unchecked. */
  function PutAsWritten(cf: ClassFile, m: MethodInfo, ipos: int, f: Frame): (s: Step)
    requires LooseOk(m, f) && HasOperands(m, ipos, 2) && (m.code[ipos] == 0xb3 || m.code[ipos] == 0xb5)
    ensures s.Next? ==> LooseOk(m, s.post) && |s.succs| == 1
  {
    match AfterColon(cf.cpItem(U2(m, ipos)))
    case None => Fail
    case Some(desc) =>
      var k := if desc == "D" || desc == "J" then 2 else 1;
      var top := if desc == "D" then "D" else if desc == "J" then "L" else desc;
      var below := if desc == "D" then "d" else "l";
      if m.maxLocals + f.sz - k < 0 then Fail // a read below the type array: not modelled
      else if CompareSimpleTypes(top, f.slots[m.maxLocals + f.sz - 1]) == -1 then Fail
      else if k == 2 && CompareSimpleTypes(below, f.slots[m.maxLocals + f.sz - 2]) == -1 then Fail
      else
        match LoosePop(m, f, if m.code[ipos] == 0xb5 then k + 1 else k)
        case None => Fail
        case Some(g) => Next(g, [Succ(ipos + 3, true)])
  }

  /**
   * verifyOpcode's effect on the instruction's own frame: Fail when a check
   * rejects it, otherwise the frame it leaves and the successors it merges
   * into. A successful step always leaves a well-formed frame: the stack
   * height stays within [0, maxStack].
   */
  function Transfer(cf: ClassFile, m: MethodInfo, ipos: int, f: Frame, retType: string): (s: Step)
    requires FrameOk(m, f) && 0 <= ipos < |m.code|
    ensures s.Next? ==> FrameOk(m, s.post) && |s.succs| <= 2
  {
    var op := m.code[ipos];
    if op <= 0x2d then TransferConstLoad(cf, m, ipos, f)
    else if op <= 0x35 then TransferArrayLoad(m, ipos, f)
    else if op <= 0x4e then TransferStore(m, ipos, f)
    else if op <= 0x56 then TransferArrayStore(m, ipos, f)
    else if op <= 0x5f then TransferStackOp(m, ipos, f)
    else if op <= 0x84 then TransferArith(m, ipos, f)
    else if op <= 0x98 then TransferConvert(m, ipos, f)
    else if op <= 0xb1 then TransferBranch(m, ipos, f, retType)
    else TransferObject(cf, m, ipos, f)
  }
}

// ---- properties of the transfer function ---------------------------------

module OpcodeFacts {
  import opened TypeLattice
  import opened OpcodeTransfer

  /** iconst_m1 .. iconst_5 push one int once the overflow check passes; nothing else changes. */
  lemma IconstPushesInt(cf: ClassFile, m: MethodInfo, ipos: int, f: Frame, retType: string)
    requires FrameOk(m, f) && 0 <= ipos < |m.code| && 0x02 <= m.code[ipos] <= 0x08
    ensures Transfer(cf, m, ipos, f, retType) ==
              if f.sz + 1 > m.maxStack then Fail
              else Next(Frame(f.slots[m.maxLocals + f.sz := "I"], f.sz + 1), [Succ(ipos + 1, true)])
  {
  }

  /** lconst_0 and lconst_1 push the slot pair l, L once two slots are free. */
  lemma LconstPushesLong(cf: ClassFile, m: MethodInfo, ipos: int, f: Frame, retType: string)
    requires FrameOk(m, f) && 0 <= ipos < |m.code| && 0x09 <= m.code[ipos] <= 0x0a
    ensures Transfer(cf, m, ipos, f, retType) ==
              if f.sz + 2 > m.maxStack then Fail
              else Next(Frame(f.slots[m.maxLocals + f.sz := "l"][m.maxLocals + f.sz + 1 := "L"], f.sz + 2),
                        [Succ(ipos + 1, true)])
  {
  }

  /** The iadd family needs two ints on top and nets one pop. */
  lemma IaddFamilyPopsOne(cf: ClassFile, m: MethodInfo, ipos: int, f: Frame, retType: string)
    requires FrameOk(m, f) && 0 <= ipos < |m.code|
    requires m.code[ipos] in {0x60, 0x64, 0x68, 0x6c, 0x70, 0x78, 0x7a, 0x7c, 0x7e, 0x80, 0x82}
    ensures Transfer(cf, m, ipos, f, retType) ==
              if f.sz < 2 || Stk(m, f, 1) != "I" || Stk(m, f, 2) != "I" then Fail
              else Next(Frame(f.slots[m.maxLocals + f.sz - 1 := "-"], f.sz - 1), [Succ(ipos + 1, true)])
  {
  }

  /** The return instructions propagate to no successor; ireturn and return accept exactly these frames. */
  lemma ReturnsHaveNoSuccessor(cf: ClassFile, m: MethodInfo, ipos: int, f: Frame, retType: string)
    requires FrameOk(m, f) && 0 <= ipos < |m.code| && 0xac <= m.code[ipos] <= 0xb1
    ensures Transfer(cf, m, ipos, f, retType).Next? ==> Transfer(cf, m, ipos, f, retType).succs == []
    ensures m.code[ipos] == 0xac ==>
              (Transfer(cf, m, ipos, f, retType).Next? <==> f.sz >= 1 && retType == "I" && Stk(m, f, 1) == "I")
    ensures m.code[ipos] == 0xb1 ==> (Transfer(cf, m, ipos, f, retType).Next? <==> retType == "-")
  {
  }

  /** l2i, l2f and l2d run into the next case, whose check then rejects the tag just written. */
  lemma LongConversionsAlwaysFail(cf: ClassFile, m: MethodInfo, ipos: int, f: Frame, retType: string)
    requires FrameOk(m, f) && 0 <= ipos < |m.code| && 0x88 <= m.code[ipos] <= 0x8a
    ensures Transfer(cf, m, ipos, f, retType) == Fail
  {
  }

  /** newarray: whatever the element type, the switch ends in its failing default. */
  lemma NewarrayAlwaysFails(cf: ClassFile, m: MethodInfo, ipos: int, f: Frame, retType: string)
    requires FrameOk(m, f) && 0 <= ipos < |m.code| && m.code[ipos] == 0xbc
    ensures Transfer(cf, m, ipos, f, retType) == Fail
  {
  }

  /** lstore_3 does not check the local index: with one local it writes "Ll" into a stack slot. */
  lemma LstoreNWritesPastLocals(cf: ClassFile, m: MethodInfo, ipos: int, f: Frame, retType: string)
    requires FrameOk(m, f) && 0 <= ipos < |m.code| && m.code[ipos] == 0x42
    requires m.maxLocals == 1 && m.maxStack >= 3 && f.sz == 2
    requires Stk(m, f, 1) == "L" && Stk(m, f, 2) == "l"
    ensures Transfer(cf, m, ipos, f, retType).Next?
    ensures Transfer(cf, m, ipos, f, retType).post.slots[3] == "Ll"
    ensures Transfer(cf, m, ipos, f, retType).post.sz == 0
  {
  }

  /** On a stack that holds them, the unchecked pops are the checked ones. */
  lemma {:induction false} LoosePopAgrees(m: MethodInfo, f: Frame, n: nat)
    requires FrameOk(m, f) && n <= f.sz
    ensures LoosePop(m, f, n) == Some(PopN(m, f, n))
    decreases n
  {
    if n > 0 {
      LoosePopAgrees(m, Pop(m, f), n - 1);
    }
  }

  /**
   * invoke* in the model is the source's code with one check added: it
   * fails when the arguments are not all on the stack, and otherwise does
   * exactly what the unchecked code does.
   */
  lemma InvokeUnderflowChecked(cf: ClassFile, m: MethodInfo, ipos: int, f: Frame, retType: string)
    requires FrameOk(m, f) && 0 <= ipos && HasOperands(m, ipos, 2) && 0xb6 <= m.code[ipos] <= 0xba
    ensures var op := m.code[ipos] as int;
            var n := ArgSlots(cf.analyzeInvoke(U2(m, ipos), op == 0xb8 || op == 0xba).args);
            Transfer(cf, m, ipos, f, retType) == if n > f.sz then Fail else InvokeAsWritten(cf, m, ipos, f)
  {
    TransferIsInvoke(cf, m, ipos, f, retType);
    InvokeAgrees(cf, m, ipos, f);
  }

  /** TransferInvoke is InvokeAsWritten guarded by the underflow check. */
  lemma InvokeAgrees(cf: ClassFile, m: MethodInfo, ipos: int, f: Frame)
    requires FrameOk(m, f) && 0 <= ipos && HasOperands(m, ipos, 2) && 0xb6 <= m.code[ipos] <= 0xba
    ensures var op := m.code[ipos] as int;
            var n := ArgSlots(cf.analyzeInvoke(U2(m, ipos), op == 0xb8 || op == 0xba).args);
            TransferInvoke(cf, m, ipos, f) == if n > f.sz then Fail else InvokeAsWritten(cf, m, ipos, f)
  {
    var op := m.code[ipos] as int;
    var sig := cf.analyzeInvoke(U2(m, ipos), op == 0xb8 || op == 0xba);
    var n := ArgSlots(sig.args);
    if n <= f.sz {
      LoosePopAgrees(m, f, n);
    }
  }

  /** An invoke opcode is handled by TransferInvoke. */
  lemma TransferIsInvoke(cf: ClassFile, m: MethodInfo, ipos: int, f: Frame, retType: string)
    requires FrameOk(m, f) && 0 <= ipos && HasOperands(m, ipos, 2) && 0xb6 <= m.code[ipos] <= 0xba
    ensures Transfer(cf, m, ipos, f, retType) == TransferInvoke(cf, m, ipos, f)
  {
  }

  /** putstatic and putfield are handled by TransferPut. */
  lemma TransferIsPut(cf: ClassFile, m: MethodInfo, ipos: int, f: Frame, retType: string)
    requires FrameOk(m, f) && 0 <= ipos && HasOperands(m, ipos, 2) && (m.code[ipos] == 0xb3 || m.code[ipos] == 0xb5)
    ensures Transfer(cf, m, ipos, f, retType) == TransferPut(cf, m, ipos, f)
  {
  }

  /**
   * putstatic and putfield in the model are the source's code with an
   * underflow check added for the value's slots and, for putfield, the
   * reference below them.
   */
  lemma PutUnderflowChecked(cf: ClassFile, m: MethodInfo, ipos: int, f: Frame, retType: string)
    requires FrameOk(m, f) && 0 <= ipos && HasOperands(m, ipos, 2) && (m.code[ipos] == 0xb3 || m.code[ipos] == 0xb5)
    ensures match AfterColon(cf.cpItem(U2(m, ipos)))
            case None => Transfer(cf, m, ipos, f, retType) == Fail
            case Some(desc) =>
              var pops := (if desc == "D" || desc == "J" then 2 else 1) + (if m.code[ipos] == 0xb5 then 1 else 0);
              Transfer(cf, m, ipos, f, retType) == if f.sz < pops then Fail else PutAsWritten(cf, m, ipos, f)
  {
    TransferIsPut(cf, m, ipos, f, retType);
    match AfterColon(cf.cpItem(U2(m, ipos)))
    case None =>
    case Some(desc) =>
      var k := if desc == "D" || desc == "J" then 2 else 1;
      var pops := k + (if m.code[ipos] == 0xb5 then 1 else 0);
      if f.sz >= pops {
        LoosePopAgrees(m, f, pops);
        LoosePopAgrees(m, f, k);
        if m.code[ipos] == 0xb5 {
          LoosePopAgrees(m, PopN(m, f, k), 1);
          PopNThenPop(m, f, k);
        }
      }
  }

  /** Popping k slots and then one more is popping k + 1. */
  lemma {:induction false} PopNThenPop(m: MethodInfo, f: Frame, k: nat)
    requires FrameOk(m, f) && k + 1 <= f.sz
    ensures Pop(m, PopN(m, f, k)) == PopN(m, f, k + 1)
    decreases k
  {
    if k > 0 {
      PopNThenPop(m, Pop(m, f), k - 1);
    }
  }

  /**
   * A method with one local and one stack slot whose first instruction pops
   * below the empty stack: as written, invokestatic of a method taking an
   * int leaves height -1 with local 0 overwritten, and putfield of an int
   * field over a one-slot stack does the same; the model rejects both.
   */
  lemma UncheckedPopsAccepted()
    ensures var cf := ClassFile(2, [0, 9], (i: int) => "f:I", (i: int, b: bool) => InvokeSig(["I"], "-"),
                                (a: string, b: string) => "X");
            var invoke := MethodInfo([0xb8, 0, 1, 0xb1], 1, 1);
            var put := MethodInfo([0xb5, 0, 1, 0xb1], 1, 1);
            InvokeAsWritten(cf, invoke, 0, Frame(["I", "-"], 0)) == Next(Frame(["-", "-"], -1), [Succ(3, false)]) &&
            Transfer(cf, invoke, 0, Frame(["I", "-"], 0), "-") == Fail &&
            PutAsWritten(cf, put, 0, Frame(["I", "I"], 1)) == Next(Frame(["-", "-"], -1), [Succ(3, true)]) &&
            Transfer(cf, put, 0, Frame(["I", "I"], 1), "-") == Fail
  {
    var cf := ClassFile(2, [0, 9], (i: int) => "f:I", (i: int, b: bool) => InvokeSig(["I"], "-"),
                        (a: string, b: string) => "X");
    var invoke := MethodInfo([0xb8, 0, 1, 0xb1], 1, 1);
    var put := MethodInfo([0xb5, 0, 1, 0xb1], 1, 1);
    assert U2(invoke, 0) == 1 && U2(put, 0) == 1;
    assert ArgSlots(["I"]) == 1;
    assert AfterColon("f:I") == Some("I") by {
      assert "f:I"[1..] == ":I";
      assert ":I"[1..] == "I";
    }
  }

  /** The two-byte branch operand is an absolute position, and the fall-through goes to ipos + 1. */
  lemma BranchTargetsAbsolute(cf: ClassFile, m: MethodInfo, ipos: int, f: Frame, retType: string)
    requires FrameOk(m, f) && 0 <= ipos && ipos + 2 < |m.code| && 0x99 <= m.code[ipos] <= 0x9e
    requires f.sz >= 1 && Stk(m, f, 1) == "I"
    ensures var target := (m.code[ipos + 1] as int) * 256 + m.code[ipos + 2] as int;
            Transfer(cf, m, ipos, f, retType) ==
              if target >= |m.code| then Fail
              else Next(Frame(f.slots[m.maxLocals + f.sz - 1 := "-"], f.sz - 1),
                        [Succ(ipos + 1, true), Succ(target, true)])
  {
  }
}
