/** The postfix evaluator of the expression evaluator (main.c
    `evaluatePostfix`). Values are exact reals; `pow` is the C library's power
    function, taken as a parameter. */
module Evaluator {
  import opened Common
  import opened Tokens
  import opened Stacks

  /** The arithmetic of one operator, `a` being the left operand. */
  function Apply(op: string, a: real, b: real, pow: (real, real) -> real): real
    requires IsOperator(op) && (op == "/" ==> b != 0.0)
  {
    if op == "+" then a + b
    else if op == "-" then a - b
    else if op == "*" then a * b
    else if op == "/" then a / b
    else pow(a, b)
  }

  /** What one token does to the value stack (top last): a number is pushed;
      an operator replaces the top two values by its result. `None` when an
      operator finds fewer than two values, on a division by exactly zero,
      and on a token that is neither number nor operator. */
  function Reduce(t: string, st: seq<real>, pow: (real, real) -> real): Option<seq<real>> {
    if IsNumber(t) then Some(st + [NumberValue(t)])
    else if IsOperator(t) then
      if |st| < 2 then None
      else
        var b := st[|st| - 1];
        var a := st[|st| - 2];
        if t == "/" && b == 0.0 then None
        else Some(st[..|st| - 2] + [Apply(t, a, b, pow)])
    else None
  }

  /** Evaluates the tokens still to read from the stack `st`; at the end the
      stack must hold exactly one value. */
  function EvalFrom(ts: seq<string>, st: seq<real>, pow: (real, real) -> real): Option<real>
    decreases |ts|
  {
    if ts == [] then (if |st| == 1 then Some(st[0]) else None)
    else match Reduce(ts[0], st, pow)
      case None => None
      case Some(st') => EvalFrom(ts[1..], st', pow)
  }

  /** The value of a postfix token sequence, or `None` (`evaluatePostfix`
      returning 0). */
  function Evaluate(ts: seq<string>, pow: (real, real) -> real): Option<real> {
    EvalFrom(ts, [], pow)
  }

  /** One pass of the token loop of `evaluatePostfix`. */
  method ReduceToken(stack: DoubleStack, t: string, pow: (real, real) -> real) returns (ok: bool)
    modifies stack
    ensures ok <==> Reduce(t, old(stack.items), pow).Some?
    ensures ok ==> stack.items == Reduce(t, old(stack.items), pow).value
  {
    ok := true;
    if IsNumber(t) {
      assert Reduce(t, stack.items, pow) == Some(stack.items + [NumberValue(t)]);
      stack.Push(NumberValue(t));
    } else if IsOperator(t) {
      if stack.Top() < 1 {
        return false;
      }
      ghost var st := stack.items;
      var b := stack.Pop();
      var a := stack.Pop();
      assert a == st[|st| - 2] && b == st[|st| - 1] && stack.items == st[..|st| - 2];
      var r := 0.0;
      if t == "+" {
        r := a + b;
      } else if t == "-" {
        r := a - b;
      } else if t == "*" {
        r := a * b;
      } else if t == "/" {
        if b == 0.0 {
          return false;
        }
        r := a / b;
      } else if t == "^" {
        r := pow(a, b);
      }
      assert r == Apply(t, a, b, pow);
      assert Reduce(t, st, pow) == Some(st[..|st| - 2] + [r]);
      stack.Push(r);
    } else {
      ok := false;
    }
  }

  /** `evaluatePostfix`: 1 and the value, or 0 (the value is then not set,
      here 0). */
  method EvaluatePostfix(tokens: seq<string>, pow: (real, real) -> real) returns (ok: int, result: real)
    ensures ok == 0 || ok == 1
    ensures ok == 1 <==> Evaluate(tokens, pow).Some?
    ensures ok == 1 ==> result == Evaluate(tokens, pow).value
  {
    var stack := new DoubleStack();
    result := 0.0;
    var i := 0;
    while i < |tokens|
      invariant i <= |tokens|
      invariant EvalFrom(tokens[i..], stack.items, pow) == Evaluate(tokens, pow)
      decreases |tokens| - i
    {
      assert tokens[i..][1..] == tokens[i + 1..];
      var fine := ReduceToken(stack, tokens[i], pow);
      if !fine {
        return 0, result;
      }
      i := i + 1;
    }
    if stack.Top() != 0 {
      return 0, result;
    }
    result := stack.Pop();
    ok := 1;
  }

  /** The shape of a postfix sequence that leaves exactly one value, `n`
      values being on the stack already: only numbers and operators, and no
      operator meets fewer than two values. */
  predicate Shape(ts: seq<string>, n: nat)
    decreases |ts|
  {
    if ts == [] then n == 1
    else if IsNumber(ts[0]) then Shape(ts[1..], n + 1)
    else IsOperator(ts[0]) && n >= 2 && Shape(ts[1..], n - 1)
  }

  lemma {:induction false} EvalFromShape(ts: seq<string>, st: seq<real>, pow: (real, real) -> real)
    ensures EvalFrom(ts, st, pow).Some? ==> Shape(ts, |st|)
    ensures Shape(ts, |st|) && "/" !in ts ==> EvalFrom(ts, st, pow).Some?
    decreases |ts|
  {
    if ts != [] {
      assert "/" !in ts ==> "/" !in ts[1..] by {
        assert forall k :: 0 <= k < |ts[1..]| ==> ts[1..][k] == ts[k + 1];
      }
      match Reduce(ts[0], st, pow)
      case None =>
      case Some(st') =>
        assert |st'| == (if IsNumber(ts[0]) then |st| + 1 else |st| - 1);
        EvalFromShape(ts[1..], st', pow);
    }
  }

  /** A successful evaluation reads a well-shaped sequence; without `/`,
      every well-shaped sequence evaluates. */
  lemma EvaluateShape(ts: seq<string>, pow: (real, real) -> real)
    ensures Evaluate(ts, pow).Some? ==> Shape(ts, 0)
    ensures Shape(ts, 0) && "/" !in ts ==> Evaluate(ts, pow).Some?
  {
    EvalFromShape(ts, [], pow);
  }

  /** `x 0 /` fails on the division by zero; `x y` leaves two values. */
  lemma EvaluateFailures(x: string, y: string, pow: (real, real) -> real)
    requires IsNumber(x) && IsNumber(y)
    ensures NumberValue(y) == 0.0 ==> Evaluate([x, y, "/"], pow) == None
    ensures Evaluate([x, y], pow) == None
  {
    var (vx, vy) := (NumberValue(x), NumberValue(y));
    var none: seq<real> := [];
    NotNumbers("/");
    assert [x, y, "/"][1..] == [y, "/"] && [y, "/"][1..] == ["/"];
    assert none + [vx] == [vx] && [vx] + [vy] == [vx, vy];
    assert Reduce(x, none, pow) == Some([vx]);
    assert Reduce(y, [vx], pow) == Some([vx, vy]);
    assert [x, y][1..] == [y] && [y][1..] == [];
    assert EvalFrom([x, y], none, pow) == EvalFrom([y], [vx], pow);
    assert EvalFrom([y], [vx], pow) == EvalFrom([], [vx, vy], pow);
    if vy == 0.0 {
      assert EvalFrom([x, y, "/"], none, pow) == EvalFrom(["/"], [vx, vy], pow);
    }
  }
}
