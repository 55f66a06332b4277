/** The printer of the polynomial program (C.c `print_polynomial`), as the
    text it writes. */
module PolyPrint {
  import opened Common
  import opened PolyParse

  function Abs(v: int): (r: nat)
    ensures r == v || r == -v
  {
    if v < 0 then -v else v
  }

  /** What is written for a nonzero coefficient `v` of degree `d`: ` + `
      unless it comes first or is negative, ` - ` when negative (first or
      not), the magnitude unless it is 1 on a non-constant term, then `x` and
      `^d` as the degree asks. */
  function TermText(v: int, d: nat, first: bool): string {
    (if !first && v > 0 then " + " else "") +
    (if v < 0 then " - " else "") +
    (if Abs(v) != 1 || d == 0 then NatText(Abs(v)) else "") +
    (if d >= 1 then "x" + (if d > 1 then "^" + NatText(d) else "") else "")
  }

  /** The nonzero terms of degree `i` down to 0; `0` when nothing at all was
      written (`first` still set). */
  function Terms(c: seq<int>, i: int, first: bool): string
    requires |c| > MaxDegree && -1 <= i <= MaxDegree
    decreases i + 1
  {
    if i < 0 then (if first then "0" else "")
    else if c[i] == 0 then Terms(c, i - 1, first)
    else TermText(c[i], i, first) + Terms(c, i - 1, false)
  }

  /** Coefficients 100 down to 0; anything above degree 100 is not looked
      at. */
  function PolyText(c: seq<int>): string
    requires |c| > MaxDegree
  {
    Terms(c, MaxDegree, true)
  }

  /** The body of the loop of `print_polynomial` for one nonzero
      coefficient. */
  method WriteTerm(v: int, i: nat, first: bool) returns (piece: string)
    requires v != 0
    ensures piece == TermText(v, i, first)
  {
    piece := "";
    if !first && v > 0 {
      piece := piece + " + ";
    }
    if v < 0 {
      piece := piece + " - ";
    }
    ghost var sign := piece;
    assert sign == (if !first && v > 0 then " + " else "") + (if v < 0 then " - " else "");
    var abs := if v < 0 then -v else v;
    if abs != 1 || i == 0 {
      piece := piece + NatText(abs);
    }
    ghost var head := piece;
    assert head == sign + (if Abs(v) != 1 || i == 0 then NatText(Abs(v)) else "");
    if i >= 1 {
      piece := piece + "x";
      if i > 1 {
        piece := piece + "^" + NatText(i);
        assert piece == head + ("x" + ("^" + NatText(i)));
      }
    }
  }

  /** `print_polynomial`: the text it writes, newline included. */
  method PrintPolynomial(coeff: array<int>) returns (text: string)
    requires coeff.Length > MaxDegree
    ensures text == PolyText(coeff[..]) + "\n"
  {
    ghost var c := coeff[..];
    var first := true;
    text := "";
    var i: int := MaxDegree;
    while i >= 0
      invariant -1 <= i <= MaxDegree
      invariant text + Terms(c, i, first) == PolyText(c)
      decreases i + 1
    {
      if coeff[i] != 0 {
        var piece := WriteTerm(coeff[i], i, first);
        AppendAssoc(text, piece, Terms(c, i - 1, false));
        text := text + piece;
        first := false;
      }
      i := i - 1;
    }
    if first {
      text := text + "0";
    }
    assert Terms(c, -1, first) == if first then "0" else "";
    text := text + "\n";
  }

  /** Examples of the layout. */
  lemma PrintExamples()
    ensures TermText(-1, 2, true) == " - x^2"
    ensures TermText(1, 1, false) == " + x"
    ensures TermText(-1, 0, false) == " - 1"
    ensures TermText(7, 3, true) == "7x^3"
  {
  }
}
