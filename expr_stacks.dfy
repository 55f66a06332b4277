/** The two fixed-size stacks of the expression evaluator (main.c): one of
    numbers for the evaluator and one of strings for the operator stack of
    the converter. The array and its `top` index become a sequence whose last
    element is the top; `top` is its length minus one. */
module Stacks {
  import opened Common

  class DoubleStack {
    var items: seq<real>

    /** `initDoubleStack` */
    constructor ()
      ensures items == []
    {
      items := [];
    }

    /** The C field `top`: -1 when empty. */
    function Top(): (t: int)
      reads this
      ensures t == -1 <==> items == []
      ensures t >= -1 && t + 1 == |items|
    {
      |items| - 1
    }

    /** `isEmptyDouble` */
    predicate IsEmpty()
      reads this
    {
      items == []
    }

    /** `pushDouble` (the capacity check the C code lacks is not modelled) */
    method Push(v: real)
      modifies this
      ensures items == old(items) + [v]
    {
      items := items + [v];
    }

    /** `popDouble`: the top value and the stack without it; 0 and no change
        when the stack is empty. */
    method Pop() returns (v: real)
      modifies this
      ensures old(items) == [] ==> v == 0.0 && items == []
      ensures old(items) != [] ==> v == old(items)[|old(items)| - 1] && items == old(items)[..|old(items)| - 1]
    {
      if items == [] {
        v := 0.0;
      } else {
        v := items[|items| - 1];
        items := items[..|items| - 1];
      }
    }
  }

  class StringStack {
    var items: seq<string>

    /** `initStringStack` */
    constructor ()
      ensures items == []
    {
      items := [];
    }

    /** `isEmptyString` */
    predicate IsEmpty()
      reads this
    {
      items == []
    }

    /** `peekString`: the top string, `None` standing for `NULL`. */
    function Peek(): (r: Option<string>)
      reads this
      ensures r.None? <==> items == []
      ensures r.Some? ==> r.value == items[|items| - 1]
    {
      if items == [] then None else Some(items[|items| - 1])
    }

    /** `pushString` */
    method Push(s: string)
      modifies this
      ensures items == old(items) + [s]
    {
      items := items + [s];
    }

    /** `popString`: what `Peek` shows, and the stack without it. */
    method Pop() returns (r: Option<string>)
      modifies this
      ensures r == old(Peek())
      ensures old(items) == [] ==> items == []
      ensures old(items) != [] ==> items == old(items)[..|old(items)| - 1]
    {
      r := Peek();
      if items != [] {
        items := items[..|items| - 1];
      }
    }
  }
}
