/** The shunting-yard converter of the expression evaluator (main.c
    `toPostfix`): numbers go straight to the output, operators wait on a
    stack until an operator of no higher precedence, a `)` or the end of the
    input lets them out. */
module Postfix {
  import opened Common
  import opened Tokens
  import opened Stacks

  function Last(s: seq<string>): string
    requires |s| > 0
  {
    s[|s| - 1]
  }

  function Init(s: seq<string>): seq<string>
    requires |s| > 0
  {
    s[..|s| - 1]
  }

  /** The operator loop before a push: pops, onto the output, every operator
      on top whose precedence is at least `p`; stops at `(` or a weaker one. */
  function PopHigher(ops: seq<string>, out: seq<string>, p: nat): (r: (seq<string>, seq<string>))
    decreases |ops|
  {
    if |ops| > 0 && IsOperator(Last(ops)) && Precedence(Last(ops)) >= p then
      PopHigher(Init(ops), out + [Last(ops)], p)
    else (ops, out)
  }

  /** The `)` loop: pops operators onto the output down to the nearest `(`,
      which is dropped; `None` when there is no `(`. */
  function Unwind(ops: seq<string>, out: seq<string>): Option<(seq<string>, seq<string>)>
    decreases |ops|
  {
    if |ops| == 0 then None
    else if Last(ops) == "(" then Some((Init(ops), out))
    else Unwind(Init(ops), out + [Last(ops)])
  }

  /** The final loop: moves what is left on the stack to the output; `None`
      when a `(` is left. */
  function Flush(ops: seq<string>, out: seq<string>): Option<seq<string>>
    decreases |ops|
  {
    if |ops| == 0 then Some(out)
    else if Last(ops) == "(" then None
    else Flush(Init(ops), out + [Last(ops)])
  }

  /** What one token does to the operator stack `ops` (top last) and the
      output `out`; `None` for an unmatched `)` or a token of no kind. */
  function Shunt(t: string, ops: seq<string>, out: seq<string>): Option<(seq<string>, seq<string>)> {
    if IsNumber(t) then Some((ops, out + [t]))
    else if t == "(" then Some((ops + [t], out))
    else if t == ")" then Unwind(ops, out)
    else if IsOperator(t) then
      var (ops', out') := PopHigher(ops, out, Precedence(t));
      Some((ops' + [t], out'))
    else None
  }

  /** Converts the tokens `ts` still to read, from the stack `ops` and the
      output `out` so far. */
  function ConvertFrom(ts: seq<string>, ops: seq<string>, out: seq<string>): Option<seq<string>>
    decreases |ts|
  {
    if ts == [] then Flush(ops, out)
    else match Shunt(ts[0], ops, out)
      case None => None
      case Some((ops', out')) => ConvertFrom(ts[1..], ops', out')
  }

  /** The postfix form of an infix token sequence, or `None` (`toPostfix`
      returning -1). */
  function Convert(ts: seq<string>): Option<seq<string>> {
    ConvertFrom(ts, [], [])
  }

  /** The popping loop before an operator is pushed. */
  method PopHigherOnto(opStack: StringStack, output: seq<string>, p: nat) returns (out: seq<string>)
    modifies opStack
    ensures (opStack.items, out) == PopHigher(old(opStack.items), output, p)
  {
    out := output;
    while !opStack.IsEmpty() && IsOperator(opStack.Peek().value) &&
          Precedence(opStack.Peek().value) >= p
      invariant PopHigher(opStack.items, out, p) == PopHigher(old(opStack.items), output, p)
      decreases |opStack.items|
    {
      var top := opStack.Pop();
      out := out + [top.value];
    }
  }

  /** The popping loop of a `)`, with the check for the missing `(`. */
  method UnwindOnto(opStack: StringStack, output: seq<string>) returns (found: bool, out: seq<string>)
    modifies opStack
    ensures found <==> Unwind(old(opStack.items), output).Some?
    ensures found ==> (opStack.items, out) == Unwind(old(opStack.items), output).value
  {
    out := output;
    while !opStack.IsEmpty() && opStack.Peek() != Some("(")
      invariant Unwind(opStack.items, out) == Unwind(old(opStack.items), output)
      decreases |opStack.items|
    {
      var top := opStack.Pop();
      out := out + [top.value];
    }
    found := !opStack.IsEmpty();
    if found {
      var _ := opStack.Pop();
    }
  }

  /** One pass of the token loop of `toPostfix`. */
  method ShuntToken(opStack: StringStack, output: seq<string>, t: string) returns (ok: bool, out: seq<string>)
    modifies opStack
    ensures ok <==> Shunt(t, old(opStack.items), output).Some?
    ensures ok ==> (opStack.items, out) == Shunt(t, old(opStack.items), output).value
  {
    out := output;
    ok := true;
    if IsNumber(t) {
      out := output + [t];
    } else if t == "(" {
      opStack.Push(t);
    } else if t == ")" {
      ok, out := UnwindOnto(opStack, output);
    } else if IsOperator(t) {
      out := PopHigherOnto(opStack, output, Precedence(t));
      opStack.Push(t);
    } else {
      ok := false;
    }
  }

  /** `toPostfix`: the number of output tokens and the tokens, or -1. */
  method ToPostfix(tokens: seq<string>) returns (outCount: int, output: seq<string>)
    ensures outCount == -1 <==> Convert(tokens).None?
    ensures outCount != -1 ==> outCount == |output| && Convert(tokens) == Some(output)
  {
    var opStack := new StringStack();
    output := [];
    var i := 0;
    while i < |tokens|
      invariant i <= |tokens|
      invariant ConvertFrom(tokens[i..], opStack.items, output) == Convert(tokens)
      decreases |tokens| - i
    {
      assert tokens[i..][1..] == tokens[i + 1..];
      var ok;
      ok, output := ShuntToken(opStack, output, tokens[i]);
      if !ok {
        return -1, output;
      }
      i := i + 1;
    }
    while !opStack.IsEmpty()
      invariant Flush(opStack.items, output) == Convert(tokens)
      decreases |opStack.items|
    {
      if opStack.Peek() == Some("(") {
        return -1, output;
      }
      var top := opStack.Pop();
      output := output + [top.value];
    }
    outCount := |output|;
  }
}
