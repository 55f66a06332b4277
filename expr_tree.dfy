/** Expression trees as the meaning of the token sequences: the converter
    turns the fully parenthesised infix form of a tree into its postfix form,
    and the evaluator computes the tree's value from that postfix form. */
module Expressions {
  import opened Common
  import opened Tokens
  import opened Postfix
  import opened Evaluator
  import opened PostfixFacts

  datatype Expr = Num(text: string) | Bin(op: string, left: Expr, right: Expr)

  predicate Valid(e: Expr) {
    match e
    case Num(t) => IsNumber(t)
    case Bin(op, l, r) => IsOperator(op) && Valid(l) && Valid(r)
  }

  /** The infix tokens, every operation in its own parentheses. */
  function Infix(e: Expr): seq<string> {
    match e
    case Num(t) => [t]
    case Bin(op, l, r) => ["("] + Infix(l) + [op] + Infix(r) + [")"]
  }

  /** The postfix tokens: both operands, then the operator. */
  function PostfixOf(e: Expr): seq<string> {
    match e
    case Num(t) => [t]
    case Bin(op, l, r) => PostfixOf(l) + PostfixOf(r) + [op]
  }

  /** The value, `None` when some division has a zero divisor. */
  function Value(e: Expr, pow: (real, real) -> real): Option<real>
    requires Valid(e)
  {
    match e
    case Num(t) => Some(NumberValue(t))
    case Bin(op, l, r) =>
      match (Value(l, pow), Value(r, pow))
      case (Some(a), Some(b)) => if op == "/" && b == 0.0 then None else Some(Apply(op, a, b, pow))
      case _ => None
  }

  /** A `(` waits on the stack. */
  lemma OpenStep(xs: seq<string>, ops: seq<string>, out: seq<string>)
    ensures ConvertFrom(["("] + xs, ops, out) == ConvertFrom(xs, ops + ["("], out)
  {
    NotNumbers("(");
    assert (["("] + xs)[0] == "(" && (["("] + xs)[1..] == xs;
  }

  /** An operator right after a `(` pops nothing. */
  lemma OperatorStep(op: string, xs: seq<string>, ops: seq<string>, out: seq<string>)
    requires IsOperator(op)
    ensures ConvertFrom([op] + xs, ops + ["("], out) == ConvertFrom(xs, ops + ["(", op], out)
  {
    ShuntOperator(op, ops + ["("], out);
    assert PopHigher(ops + ["("], out, Precedence(op)) == (ops + ["("], out);
    assert ([op] + xs)[0] == op && ([op] + xs)[1..] == xs;
    assert (ops + ["("]) + [op] == ops + ["(", op];
  }

  /** The `)` releases the one operator waiting above its `(`. */
  lemma CloseStep(op: string, xs: seq<string>, ops: seq<string>, out: seq<string>)
    requires IsOperator(op)
    ensures ConvertFrom([")"] + xs, ops + ["(", op], out) == ConvertFrom(xs, ops, out + [op])
  {
    NotNumbers(")");
    assert Unwind(ops + ["(", op], out) == Some((ops, out + [op])) by {
      assert Last(ops + ["(", op]) == op && Init(ops + ["(", op]) == ops + ["("];
      assert Last(ops + ["("]) == "(" && Init(ops + ["("]) == ops;
    }
    assert ([")"] + xs)[0] == ")" && ([")"] + xs)[1..] == xs;
  }

  lemma {:induction false} ConvertInfix(e: Expr, rest: seq<string>, ops: seq<string>, out: seq<string>)
    requires Valid(e)
    ensures ConvertFrom(Infix(e) + rest, ops, out) == ConvertFrom(rest, ops, out + PostfixOf(e))
  {
    match e
    case Num(t) =>
      ShuntNumber(t, ops, out);
      assert ([t] + rest)[1..] == rest;
    case Bin(op, l, r) =>
      var (li, ri) := (Infix(l), Infix(r));
      var (lp, rp) := (PostfixOf(l), PostfixOf(r));
      var tail := [op] + (ri + ([")"] + rest));
      Regroup(["("], li, [op], ri, [")"], rest);
      OpenStep(li + tail, ops, out);
      ConvertInfix(l, tail, ops + ["("], out);
      OperatorStep(op, ri + ([")"] + rest), ops, out + lp);
      ConvertInfix(r, [")"] + rest, ops + ["(", op], out + lp);
      CloseStep(op, rest, ops, out + lp + rp);
      AppendAssoc(out, lp, rp);
      AppendAssoc(out, lp + rp, [op]);
  }

  /** Five pieces and a tail, grouped to the right. */
  lemma Regroup<T>(a: seq<T>, b: seq<T>, c: seq<T>, d: seq<T>, e: seq<T>, f: seq<T>)
    ensures a + b + c + d + e + f == a + (b + (c + (d + (e + f))))
  {
    AppendAssoc(a + b + c + d, e, f);
    AppendAssoc(a + b + c, d, e + f);
    AppendAssoc(a + b, c, d + (e + f));
    AppendAssoc(a, b, c + (d + (e + f)));
  }

  lemma {:induction false} EvaluatePostfixOf(e: Expr, rest: seq<string>, st: seq<real>, pow: (real, real) -> real)
    requires Valid(e)
    ensures EvalFrom(PostfixOf(e) + rest, st, pow) ==
            match Value(e, pow)
            case None => None
            case Some(v) => EvalFrom(rest, st + [v], pow)
  {
    match e
    case Num(t) =>
      assert ([t] + rest)[1..] == rest;
    case Bin(op, l, r) =>
      var (lp, rp) := (PostfixOf(l), PostfixOf(r));
      assert PostfixOf(e) + rest == lp + (rp + ([op] + rest));
      EvaluatePostfixOf(l, rp + ([op] + rest), st, pow);
      if Value(l, pow).Some? {
        var a := Value(l, pow).value;
        EvaluatePostfixOf(r, [op] + rest, st + [a], pow);
        if Value(r, pow).Some? {
          ApplyStep(op, rest, st, a, Value(r, pow).value, pow);
        }
      }
  }

  /** An operator over the two values on top of the stack. */
  lemma ApplyStep(op: string, rest: seq<string>, st: seq<real>, a: real, b: real, pow: (real, real) -> real)
    requires IsOperator(op)
    ensures EvalFrom([op] + rest, st + [a] + [b], pow) ==
            if op == "/" && b == 0.0 then None else EvalFrom(rest, st + [Apply(op, a, b, pow)], pow)
  {
    var st2 := st + [a] + [b];
    NotNumbers(op);
    assert st2[|st2| - 1] == b && st2[|st2| - 2] == a && st2[..|st2| - 2] == st;
    assert ([op] + rest)[0] == op && ([op] + rest)[1..] == rest;
  }

  /** For every valid tree the converter turns the parenthesised infix form
      into the postfix form, and the evaluator computes the tree's value. */
  lemma Pipeline(e: Expr, pow: (real, real) -> real)
    requires Valid(e)
    ensures Convert(Infix(e)) == Some(PostfixOf(e))
    ensures Evaluate(PostfixOf(e), pow) == Value(e, pow)
  {
    var none: seq<string> := [];
    var empty: seq<real> := [];
    ConvertInfix(e, none, none, none);
    assert Infix(e) + none == Infix(e) && none + PostfixOf(e) == PostfixOf(e);
    assert ConvertFrom(none, none, PostfixOf(e)) == Flush(none, PostfixOf(e));
    EvaluatePostfixOf(e, none, empty, pow);
    assert PostfixOf(e) + none == PostfixOf(e);
    if Value(e, pow).Some? {
      assert empty + [Value(e, pow).value] == [Value(e, pow).value];
    }
  }
}
