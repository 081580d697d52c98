// Bounded pointer stack: a fixed array of STACK_SIZE pointer slots and a
// head index marking the first free slot. Pointers are addresses, with 0 as
// the null pointer.

module PointerStack {

  const STACK_SIZE: nat := 65536

  /** The value `peek` and `pop` hand back: null on an empty stack. */
  function TopOrNull(s: seq<nat>): (p: nat)
    ensures s == [] ==> p == 0
    ensures s != [] ==> p == s[|s| - 1]
  {
    if s == [] then 0 else s[|s| - 1]
  }

  class Stack {
    var data: array<nat>
    var head: nat

    ghost predicate Valid()
      reads this
    {
      data.Length == STACK_SIZE && head <= STACK_SIZE
    }

    /** The pushed pointers, bottom first. */
    ghost function Contents(): (s: seq<nat>)
      reads this, data
      requires Valid()
      ensures |s| == head <= STACK_SIZE
    {
      data[..head]
    }

    /** create_stack: a fresh stack with head at the start of data. */
    constructor ()
      ensures Valid() && fresh(data)
      ensures head == 0 && Contents() == []
    {
      data := new nat[STACK_SIZE];
      head := 0;
    }

    /** push: -1 on a full stack with nothing changed, otherwise 0 with ele on top. */
    method Push(ele: nat) returns (r: int)
      requires Valid()
      modifies this, data
      ensures Valid() && data == old(data)
      ensures r == -1 <==> old(head) == STACK_SIZE
      ensures r == 0 <==> old(head) < STACK_SIZE
      ensures r == -1 ==> head == old(head) && data[..] == old(data[..])
      ensures r == 0 ==> head == old(head) + 1 && Contents() == old(Contents()) + [ele]
      ensures forall k :: 0 <= k < old(head) ==> data[k] == old(data[k])
    {
      if head == STACK_SIZE {
        return -1;
      }
      data[head] := ele;
      head := head + 1;
      return 0;
    }

    /** peek: the top pointer, or null when empty; never moves head. */
    method Peek() returns (p: nat)
      requires Valid()
      ensures p == TopOrNull(Contents())
      ensures head == 0 ==> p == 0
      ensures head > 0 ==> p == data[head - 1]
    {
      if head == 0 {
        return 0;
      }
      return data[head - 1];
    }

    /** pop: null on an empty stack; otherwise the top pointer, and the stack shrinks by one. */
    method Pop() returns (p: nat)
      requires Valid()
      modifies this`head
      ensures Valid()
      ensures p == TopOrNull(old(Contents()))
      ensures old(head) == 0 ==> head == 0
      ensures old(head) > 0 ==> head == old(head) - 1 && old(Contents()) == Contents() + [p]
    {
      if head == 0 {
        return 0;
      }
      head := head - 1;
      return data[head];
    }
  }

  /** push then pop hands back the pushed pointer and restores contents and size. */
  method PushThenPop(s: Stack, ele: nat) returns (r: int, p: nat)
    requires s.Valid() && s.head < STACK_SIZE
    modifies s, s.data
    ensures s.Valid() && r == 0 && p == ele
    ensures s.head == old(s.head) && s.Contents() == old(s.Contents())
  {
    r := s.Push(ele);
    p := s.Pop();
  }
}
