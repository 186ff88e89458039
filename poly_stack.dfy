/**
 * The calculator's stack of polynomials. The linked list of stack elements
 * becomes the sequence `items`, bottom first, so the top is its last element.
 */
module PolyStacks {
  import opened PolyBase

  class PolyStack {
    var items: seq<Poly>

    /** EmptyPolyStack: a stack with no elements. */
    constructor ()
      ensures items == []
    {
      items := [];
    }

    /** PolyStackIsEmpty */
    predicate IsEmpty()
      reads this
    {
      items == []
    }

    /** PolyStackTop: the polynomial on the top. */
    function Top(): Poly
      requires items != []
      reads this
    {
      items[|items| - 1]
    }

    /** PolyStackNextAfterTop: the polynomial directly below the top. */
    function NextAfterTop(): Poly
      requires |items| >= 2
      reads this
    {
      items[|items| - 2]
    }

    /**
     * PolyStackHasEnoughElements: counts the elements from the top down and
     * stops as soon as there are enough.
     */
    method HasEnoughElements(numOfElems: int) returns (b: bool)
      ensures b <==> numOfElems <= 0 || |items| >= numOfElems
    {
      if numOfElems <= 0 {
        return true;
      }
      var iter := |items|;
      var elems := 0;
      while iter > 0
        invariant 0 <= iter <= |items|
        invariant elems == |items| - iter
        invariant elems < numOfElems
      {
        elems := elems + 1;
        if elems >= numOfElems {
          return true;
        }
        iter := iter - 1;
      }
      return false;
    }

    /** PolyStackPush: `p` becomes the new top; everything below stays as it was. */
    method Push(p: Poly)
      modifies this
      ensures items == old(items) + [p]
    {
      items := items + [p];
    }

    /** PolyStackPop: removes exactly the top; the rest stays in order. */
    method Pop()
      requires items != []
      modifies this
      ensures items == old(items)[..|old(items)| - 1]
    {
      items := items[..|items| - 1];
    }

    /** DestroyStack: pops until the stack is empty. */
    method Destroy()
      modifies this
      ensures items == []
    {
      while !IsEmpty()
        decreases |items|
      {
        Pop();
      }
    }
  }
}
