/** The growing array stack of stack.c. */
module ArrayStacks {
  class ArrayStack<T(0)> {
    var data: array<T>
    var top: int
    const nil: T

    ghost predicate Valid()
      reads this, data
    {
      -1 <= top < data.Length && data.Length > 0
    }

    /** The items, bottom first. */
    ghost function Contents(): (s: seq<T>)
      reads this, data
      requires Valid()
    {
      data[..top + 1]
    }

    /** `astack_init`; `nil` is what a NULL pointer reads as in the item type. */
    constructor (capacity: nat, nil: T)
      requires capacity > 0
      ensures Valid() && Contents() == [] && fresh(data) && this.nil == nil
    {
      data := new T[capacity];
      top := -1;
      this.nil := nil;
    }

    /** `astack_push`, doubling the array when it is full. */
    method Push(item: T)
      requires Valid()
      modifies this, data
      ensures Valid() && Contents() == old(Contents()) + [item]
      ensures data == old(data) || fresh(data)
      ensures data.Length == if |old(Contents())| < old(data.Length) then old(data.Length) else 2 * old(data.Length)
    {
      ghost var before := Contents();
      if top >= data.Length - 1 {
        var bigger := new T[data.Length * 2];
        forall i | 0 <= i < data.Length { bigger[i] := data[i]; }
        data := bigger;
        assert data[..top + 1] == before;
      }
      top := top + 1;
      data[top] := item;
      assert data[..top] == before;
    }

    /** `astack_pop`; popping an empty stack yields NULL. */
    method Pop() returns (item: T)
      requires Valid()
      modifies this`top
      ensures Valid()
      ensures old(Contents()) == [] ==> item == nil && Contents() == []
      ensures old(Contents()) != [] ==> old(Contents()) == Contents() + [item]
    {
      if top < 0 { return nil; }
      item := data[top];
      top := top - 1;
    }

    /** `astack_peek`. */
    method Peek() returns (item: T)
      requires Valid()
      ensures item == if Contents() == [] then nil else Contents()[|Contents()| - 1]
    {
      item := if top < 0 then nil else data[top];
    }

    /** `astack_empty`. */
    predicate IsEmpty()
      reads this, data
      requires Valid()
      ensures IsEmpty() <==> Contents() == []
    {
      top < 0
    }
  }
}
