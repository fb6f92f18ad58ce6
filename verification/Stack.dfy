/** The bounded stack of integers that the graph search and the Tower of Hanoi share. */
module Stacks {

  class Stack {
    const capacity: nat
    const stack: array<int>
    const id: int
    var top: int

    ghost predicate Valid()
      reads this
    {
      stack.Length == capacity && -1 <= top < capacity
    }

    /** The values on the stack, the top one last. */
    ghost function Contents(): (s: seq<int>)
      requires Valid()
      reads this, stack
      ensures |s| <= capacity
    {
      stack[..top + 1]
    }

    constructor (cap: nat, id: int)
      ensures Valid() && Contents() == [] && capacity == cap && this.id == id && fresh(stack)
    {
      capacity, stack, this.id, top := cap, new int[cap], id, -1;
    }

    /** A push on a full stack is dropped. */
    method Push(value: int)
      requires Valid()
      modifies this, stack
      ensures Valid()
      ensures Contents() == if old(|Contents()|) == capacity then old(Contents()) else old(Contents()) + [value]
    {
      if top == capacity - 1 { return; }
      top := top + 1;
      stack[top] := value;
    }

    /** A pop of an empty stack gives -1. */
    method Pop() returns (value: int)
      requires Valid()
      modifies this
      ensures Valid()
      ensures old(Contents()) == [] ==> value == -1 && Contents() == []
      ensures old(Contents()) != [] ==> old(Contents()) == Contents() + [value]
    {
      if top < 0 { return -1; }
      value := stack[top];
      top := top - 1;
    }

    method Peek() returns (value: int)
      requires Valid() && Contents() != []
      ensures value == Contents()[|Contents()| - 1]
    {
      value := stack[top];
    }

    method IsEmpty() returns (empty: bool)
      requires Valid()
      ensures empty <==> Contents() == []
    {
      empty := top == -1;
    }

    /** The values printed, from the bottom up. */
    method Display() returns (shown: seq<int>)
      requires Valid()
      ensures shown == Contents()
    {
      shown := [];
      for i := 0 to top + 1
        invariant shown == stack[..i]
      {
        shown := shown + [stack[i]];
      }
    }
  }
}
