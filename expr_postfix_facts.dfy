/** What `toPostfix` guarantees: which inputs it accepts, what its output is
    made of, and how precedence and left associativity order the operators. */
module PostfixFacts {
  import opened Common
  import opened Tokens
  import opened Postfix

  /** A token the converter knows what to do with. */
  predicate Recognised(t: string) {
    IsNumber(t) || t == "(" || t == ")" || IsOperator(t)
  }

  /** Parentheses match, `d` of them being open already: no `)` closes more
      than are open and none is left open at the end. */
  predicate Balanced(ts: seq<string>, d: nat)
    decreases |ts|
  {
    if ts == [] then d == 0
    else if ts[0] == "(" then Balanced(ts[1..], d + 1)
    else if ts[0] == ")" then d > 0 && Balanced(ts[1..], d - 1)
    else Balanced(ts[1..], d)
  }

  /** What the operator stack may hold. */
  predicate StackOk(ops: seq<string>) {
    forall k :: 0 <= k < |ops| ==> IsOperator(ops[k]) || ops[k] == "("
  }

  /** What the output may hold: numbers and operators, no parentheses. */
  predicate OutputOk(out: seq<string>) {
    forall k :: 0 <= k < |out| ==> IsNumber(out[k]) || IsOperator(out[k])
  }

  /** The number of `(` waiting on the stack. */
  function Opens(ops: seq<string>): nat
    decreases |ops|
  {
    if |ops| == 0 then 0 else Opens(Init(ops)) + (if Last(ops) == "(" then 1 else 0)
  }

  /** The number tokens of `ts`, in order. */
  function Numbers(ts: seq<string>): seq<string>
    decreases |ts|
  {
    if ts == [] then [] else (if IsNumber(ts[0]) then [ts[0]] else []) + Numbers(ts[1..])
  }

  lemma {:induction false} NumbersAppend(a: seq<string>, b: seq<string>)
    ensures Numbers(a + b) == Numbers(a) + Numbers(b)
    decreases |a|
  {
    if a != [] {
      assert (a + b)[0] == a[0];
      assert (a + b)[1..] == a[1..] + b;
      NumbersAppend(a[1..], b);
      var h := if IsNumber(a[0]) then [a[0]] else [];
      assert Numbers(a + b) == h + (Numbers(a[1..]) + Numbers(b));
      assert Numbers(a) == h + Numbers(a[1..]);
    } else {
      assert a + b == b;
    }
  }

  lemma NumbersOfOperator(out: seq<string>, op: string)
    requires op == "(" || op == ")" || IsOperator(op)
    ensures Numbers(out + [op]) == Numbers(out)
  {
    NumbersAppend(out, [op]);
    NotNumbers(op);
    assert Numbers([op]) == [] + Numbers([op][1..]);
  }

  /** Popping before a push moves operators only, so the open parentheses,
      the numbers and the kinds of tokens are unchanged. */
  lemma {:induction false} PopHigherKeeps(ops: seq<string>, out: seq<string>, p: nat)
    requires StackOk(ops)
    ensures var (ops', out') := PopHigher(ops, out, p);
            StackOk(ops') && Opens(ops') == Opens(ops) && Numbers(out') == Numbers(out) &&
            (OutputOk(out) ==> OutputOk(out'))
    decreases |ops|
  {
    if |ops| > 0 && IsOperator(Last(ops)) && Precedence(Last(ops)) >= p {
      NumbersOfOperator(out, Last(ops));
      PopHigherKeeps(Init(ops), out + [Last(ops)], p);
    }
  }

  /** A `)` succeeds exactly when a `(` is waiting, and closes one. */
  lemma {:induction false} UnwindKeeps(ops: seq<string>, out: seq<string>)
    requires StackOk(ops)
    ensures Unwind(ops, out).Some? <==> Opens(ops) > 0
    ensures Unwind(ops, out).Some? ==>
              var (ops', out') := Unwind(ops, out).value;
              StackOk(ops') && Opens(ops') == Opens(ops) - 1 && Numbers(out') == Numbers(out) &&
              (OutputOk(out) ==> OutputOk(out'))
    decreases |ops|
  {
    if |ops| > 0 && Last(ops) != "(" {
      NumbersOfOperator(out, Last(ops));
      UnwindKeeps(Init(ops), out + [Last(ops)]);
    }
  }

  /** The end of the input succeeds exactly when no `(` is left. */
  lemma {:induction false} FlushKeeps(ops: seq<string>, out: seq<string>)
    requires StackOk(ops)
    ensures Flush(ops, out).Some? <==> Opens(ops) == 0
    ensures Flush(ops, out).Some? ==>
              Numbers(Flush(ops, out).value) == Numbers(out) &&
              (OutputOk(out) ==> OutputOk(Flush(ops, out).value))
    decreases |ops|
  {
    if |ops| > 0 && Last(ops) != "(" {
      NumbersOfOperator(out, Last(ops));
      FlushKeeps(Init(ops), out + [Last(ops)]);
    }
  }

  /** A number goes to the output, stack untouched. */
  lemma ShuntNumber(t: string, ops: seq<string>, out: seq<string>)
    requires IsNumber(t)
    ensures Shunt(t, ops, out) == Some((ops, out + [t]))
  {
  }

  /** An operator pops what binds at least as tightly, then waits. */
  lemma ShuntOperator(t: string, ops: seq<string>, out: seq<string>)
    requires IsOperator(t)
    ensures Shunt(t, ops, out) ==
            Some((PopHigher(ops, out, Precedence(t)).0 + [t], PopHigher(ops, out, Precedence(t)).1))
  {
    NotNumbers(t);
  }

  /** One token: it is accepted exactly when it is recognised and, for a
      `)`, a `(` is waiting; the stack and the output stay well formed. */
  lemma ShuntKeeps(t: string, ops: seq<string>, out: seq<string>)
    requires StackOk(ops)
    ensures Shunt(t, ops, out).Some? <==> Recognised(t) && (t == ")" ==> Opens(ops) > 0)
    ensures Shunt(t, ops, out).Some? ==>
              var (ops', out') := Shunt(t, ops, out).value;
              StackOk(ops') &&
              Opens(ops') == (if t == "(" then Opens(ops) + 1 else if t == ")" then Opens(ops) - 1 else Opens(ops)) &&
              Numbers(out') == Numbers(out) + Numbers([t]) &&
              (OutputOk(out) ==> OutputOk(out'))
  {
    assert Numbers([t]) == (if IsNumber(t) then [t] else []) + Numbers([t][1..]);
    if IsNumber(t) {
      ShuntNumber(t, ops, out);
      NotNumbers("(");
      NotNumbers(")");
      NumbersAppend(out, [t]);
    } else if t == "(" {
      assert Init(ops + [t]) == ops;
    } else if t == ")" {
      UnwindKeeps(ops, out);
    } else if IsOperator(t) {
      PopHigherKeeps(ops, out, Precedence(t));
      var (ops', out') := PopHigher(ops, out, Precedence(t));
      assert Init(ops' + [t]) == ops';
    }
  }

  lemma {:induction false} ConvertFromKeeps(ts: seq<string>, ops: seq<string>, out: seq<string>)
    requires StackOk(ops)
    ensures ConvertFrom(ts, ops, out).Some? <==>
              (forall k :: 0 <= k < |ts| ==> Recognised(ts[k])) && Balanced(ts, Opens(ops))
    ensures ConvertFrom(ts, ops, out).Some? ==>
              Numbers(ConvertFrom(ts, ops, out).value) == Numbers(out) + Numbers(ts) &&
              (OutputOk(out) ==> OutputOk(ConvertFrom(ts, ops, out).value))
    decreases |ts|
  {
    if ts == [] {
      FlushKeeps(ops, out);
    } else {
      var t, rest := ts[0], ts[1..];
      TokensCons(ts);
      ShuntKeeps(t, ops, out);
      if Shunt(t, ops, out).Some? {
        var (ops', out') := Shunt(t, ops, out).value;
        ConvertFromKeeps(rest, ops', out');
        BalancedStep(ts, Opens(ops), Opens(ops'));
        assert ConvertFrom(ts, ops, out) == ConvertFrom(rest, ops', out');
        AppendAssoc(Numbers(out), Numbers([t]), Numbers(rest));
      } else {
        assert ConvertFrom(ts, ops, out) == None;
      }
    }
  }

  /** The first token and the rest: all recognised when each part is, and
      the numbers of the first followed by those of the rest. */
  lemma TokensCons(ts: seq<string>)
    requires ts != []
    ensures (forall k :: 0 <= k < |ts| ==> Recognised(ts[k])) <==>
              Recognised(ts[0]) && forall k :: 0 <= k < |ts[1..]| ==> Recognised(ts[1..][k])
    ensures Numbers(ts) == Numbers([ts[0]]) + Numbers(ts[1..])
  {
    var t, rest := ts[0], ts[1..];
    if forall k :: 0 <= k < |ts| ==> Recognised(ts[k]) {
      forall k | 0 <= k < |rest|
        ensures Recognised(rest[k])
      {
        assert rest[k] == ts[k + 1];
      }
    }
    if Recognised(t) && forall k :: 0 <= k < |rest| ==> Recognised(rest[k]) {
      forall k | 0 <= k < |ts|
        ensures Recognised(ts[k])
      {
        if k > 0 {
          assert ts[k] == rest[k - 1];
        }
      }
    }
    var h: seq<string> := if IsNumber(t) then [t] else [];
    assert [t][1..] == [];
    assert Numbers([t]) == h + Numbers([]);
    assert Numbers([t]) == h;
  }

  /** The first token moves the count of open parentheses from `d` to `d'`. */
  lemma BalancedStep(ts: seq<string>, d: nat, d': nat)
    requires ts != [] && (ts[0] == ")" ==> d > 0)
    requires d' == if ts[0] == "(" then d + 1 else if ts[0] == ")" then d - 1 else d
    ensures Balanced(ts, d) <==> Balanced(ts[1..], d')
  {
  }

  /** `toPostfix` succeeds exactly when every token is a number, a
      parenthesis or an operator and the parentheses balance. */
  lemma ConvertSucceeds(ts: seq<string>)
    ensures Convert(ts).Some? <==>
              (forall k :: 0 <= k < |ts| ==> Recognised(ts[k])) && Balanced(ts, 0)
  {
    ConvertFromKeeps(ts, [], []);
  }

  /** On success the output holds numbers and operators only, no
      parentheses, and the numbers are those of the input in input order. */
  lemma ConvertOutput(ts: seq<string>)
    requires Convert(ts).Some?
    ensures OutputOk(Convert(ts).value)
    ensures Numbers(Convert(ts).value) == Numbers(ts)
  {
    ConvertFromKeeps(ts, [], []);
  }

  /** `a o1 b` leaves `a b` on the output and `o1` on the stack. */
  lemma {:induction false} TwoOperands(a: string, o1: string, b: string, rest: seq<string>)
    requires IsNumber(a) && IsNumber(b) && IsOperator(o1)
    ensures Convert([a, o1, b] + rest) == ConvertFrom(rest, [o1], [a, b])
  {
    var none: seq<string> := [];
    var ts := [a, o1, b] + rest;
    assert ts[0] == a && ts[1..][0] == o1 && ts[1..][1..][0] == b && ts[1..][1..][1..] == rest;
    ShuntNumber(a, none, none);
    assert none + [a] == [a];
    ShuntOperator(o1, none, [a]);
    assert none + [o1] == [o1];
    ShuntNumber(b, [o1], [a]);
    assert [a] + [b] == [a, b];
    assert Convert(ts) == ConvertFrom(ts[1..], none, [a]);
    assert ConvertFrom(ts[1..], none, [a]) == ConvertFrom(ts[1..][1..], [o1], [a]);
    assert ConvertFrom(ts[1..][1..], [o1], [a]) == ConvertFrom(rest, [o1], [a, b]);
  }

  /** Three operands, two operators: the first operator is written first
      exactly when its precedence is at least that of the second, which makes
      equal precedence (`^` included) associate to the left. */
  lemma ThreeOperands(a: string, o1: string, b: string, o2: string, c: string)
    requires IsNumber(a) && IsNumber(b) && IsNumber(c) && IsOperator(o1) && IsOperator(o2)
    ensures Precedence(o1) >= Precedence(o2) ==> Convert([a, o1, b, o2, c]) == Some([a, b, o1, c, o2])
    ensures Precedence(o1) < Precedence(o2) ==> Convert([a, o1, b, o2, c]) == Some([a, b, c, o2, o1])
  {
    var none: seq<string> := [];
    TwoOperands(a, o1, b, [o2, c]);
    assert [a, o1, b] + [o2, c] == [a, o1, b, o2, c];
    assert [o2, c][1..] == [c] && [c][1..] == none;
    ShuntOperator(o2, [o1], [a, b]);
    if Precedence(o1) >= Precedence(o2) {
      assert PopHigher([o1], [a, b], Precedence(o2)) == (none, [a, b, o1]) by {
        assert Init([o1]) == none;
        assert [a, b] + [o1] == [a, b, o1];
      }
      assert none + [o2] == [o2];
      ShuntNumber(c, [o2], [a, b, o1]);
      assert [a, b, o1] + [c] == [a, b, o1, c];
      assert ConvertFrom([o2, c], [o1], [a, b]) == ConvertFrom([c], [o2], [a, b, o1]);
      assert ConvertFrom([c], [o2], [a, b, o1]) == ConvertFrom(none, [o2], [a, b, o1, c]);
      assert Flush([o2], [a, b, o1, c]) == Some([a, b, o1, c, o2]) by {
        assert Init([o2]) == none;
        assert [a, b, o1, c] + [o2] == [a, b, o1, c, o2];
      }
    } else {
      assert PopHigher([o1], [a, b], Precedence(o2)) == ([o1], [a, b]);
      assert [o1] + [o2] == [o1, o2];
      ShuntNumber(c, [o1, o2], [a, b]);
      assert [a, b] + [c] == [a, b, c];
      assert ConvertFrom([o2, c], [o1], [a, b]) == ConvertFrom([c], [o1, o2], [a, b]);
      assert ConvertFrom([c], [o1, o2], [a, b]) == ConvertFrom(none, [o1, o2], [a, b, c]);
      assert Flush([o1, o2], [a, b, c]) == Flush([o1], [a, b, c, o2]) by {
        assert Last([o1, o2]) == o2 && Init([o1, o2]) == [o1];
        assert [a, b, c] + [o2] == [a, b, c, o2];
      }
      assert Flush([o1], [a, b, c, o2]) == Some([a, b, c, o2, o1]) by {
        assert Init([o1]) == none;
        assert [a, b, c, o2] + [o1] == [a, b, c, o2, o1];
      }
    }
  }

  /** `3 + 4 * 2` is written `3 4 2 * +`; `2 ^ 3 ^ 2` is `2 3 ^ 2 ^`. */
  lemma ConvertExamples()
    ensures Convert(["3", "+", "4", "*", "2"]) == Some(["3", "4", "2", "*", "+"])
    ensures Convert(["2", "^", "3", "^", "2"]) == Some(["2", "3", "^", "2", "^"])
  {
    assert IsNumber("3") && IsNumber("4") && IsNumber("2");
    ThreeOperands("3", "+", "4", "*", "2");
    ThreeOperands("2", "^", "3", "^", "2");
  }
}
