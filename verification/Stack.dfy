/** The bounded operand stack of stack.c: a thousand longs, total operations, and a top that is
    read back as an int. */
module BoundedStack {
  import opened Arith

  const STACK_MAX: int := 1000

  /** Contents of a stack, bottom first. */
  type Cells = seq<Long>

  function Top(s: Cells): CInt {
    if s == [] then -1 else Wrap32(s[|s| - 1])
  }

  function Push(s: Cells, d: Long): Cells {
    if |s| < STACK_MAX then s + [d] else s
  }

  function Pop(s: Cells): Cells {
    if s == [] then s else s[..|s| - 1]
  }

  /** The bound is a thousand entries, a pop undoes a push that fits, an empty stack reads as -1, and
      any other reads as the int that agrees with its last entry modulo 2^32. */
  lemma StackLaws(s: Cells, d: Long, top: int)
    requires -0x8000_0000 <= top < 0x8000_0000
    ensures Push(s, d) == if |s| < 1000 then s + [d] else s
    ensures Pop(s + [d]) == s && Pop([]) == []
    ensures Top([]) == -1 && (Top(s + [d]) == top <==> (d - top) % 0x1_0000_0000 == 0)
  {
    IntConversion(d, top);
  }

  class Stack {
    const data: array<Long>
    var size: nat

    ghost predicate Valid()
      reads this
    {
      data.Length == STACK_MAX && size <= STACK_MAX
    }

    ghost function Contents(): Cells
      reads this, data
      requires Valid()
    {
      data[..size]
    }

    constructor ()
      ensures Valid() && fresh(data) && Contents() == []
    {
      data := new Long[STACK_MAX];
      size := 0;
    }

    method ReadTop() returns (top: CInt)
      requires Valid()
      ensures top == Top(Contents())
    {
      if size == 0 {
        return -1;
      }
      return Wrap32(data[size - 1]);
    }

    method DoPush(d: Long)
      requires Valid()
      modifies this`size, data
      ensures Valid()
      ensures Contents() == Push(old(Contents()), d)
    {
      if size < STACK_MAX {
        data[size] := d;
        size := size + 1;
      }
    }

    method DoPop()
      requires Valid()
      modifies this`size
      ensures Valid()
      ensures Contents() == Pop(old(Contents()))
    {
      if size != 0 {
        size := size - 1;
      }
    }
  }
}
