/** What `tokenize` guarantees: which lines it accepts, what its tokens are
    made of, and how it reads grouped literals, unary signs and numeric runs. */
module LexerFacts {
  import opened Common
  import opened Tokens
  import opened Lexer

  /** Every token is nonempty and made of characters the rules take in. */
  predicate TokensOk(acc: seq<string>) {
    (forall i :: 0 <= i < |acc| ==> |acc[i]| > 0) &&
    (forall i, j :: 0 <= i < |acc| && 0 <= j < |acc[i]| ==> LexChar(acc[i][j]))
  }

  lemma RunEndIs(s: string, i: nat, j: nat)
    requires i <= j <= |s|
    requires forall k :: i <= k < j ==> InRun(s[k])
    requires j == |s| || !InRun(s[j])
    ensures RunEnd(s, i) == j
  {
  }

  lemma PointRunEndIs(s: string, i: nat, j: nat)
    requires i <= j <= |s|
    requires forall k :: i <= k < j ==> IsDigit(s[k]) || s[k] == '.'
    requires j == |s| || !(IsDigit(s[j]) || s[j] == '.')
    ensures PointRunEnd(s, i) == j
  {
  }

  /** One token: it is well formed, and what it consumes are characters the
      rules take in. */
  lemma StepOk(s: string, q: nat, acc: seq<string>)
    requires q < |s| && TokensOk(acc)
    ensures Step(s, q, acc).Some? ==>
              TokensOk(Step(s, q, acc).value.1) &&
              forall k :: q <= k < Step(s, q, acc).value.0 ==> LexChar(s[k])
  {
    var r := Step(s, q, acc);
    if r.Some? {
      var (e, acc') := r.value;
      var t := acc'[|acc|];
      assert acc' == acc + [t];
      if GroupedAt(s, q) {
        var f := RunEnd(s, q + 2);
        assert t == s[q + 1..f];
        assert forall j :: 0 <= j < |t| ==> t[j] == s[q + 1 + j];
      } else if (s[q] == '+' || s[q] == '-') && OperandExpected(acc) {
        assert t == s[q..e];
        assert forall j :: 0 <= j < |t| ==> t[j] == s[q + j];
      } else if IsPunct(s[q]) {
      } else {
        assert t == s[q..e];
        assert forall j :: 0 <= j < |t| ==> t[j] == s[q + j];
      }
    }
  }

  lemma {:induction false} LexOk(s: string, p: nat, acc: seq<string>)
    requires p <= |s| && TokensOk(acc)
    ensures Lex(s, p, acc).Some? ==>
              TokensOk(Lex(s, p, acc).value) &&
              forall k :: p <= k < |s| ==> IsSpace(s[k]) || LexChar(s[k])
    decreases |s| - p
  {
    var q := SpaceEnd(s, p);
    if q < |s| {
      StepOk(s, q, acc);
      match Step(s, q, acc)
      case None =>
      case Some((e, acc')) =>
        LexOk(s, e, acc');
    }
  }

  /** A line that lexes holds only blanks and characters the rules take in,
      and every token is nonempty and made of such characters. */
  lemma TokenizeOk(s: string)
    ensures Tokenize(s).Some? ==>
              TokensOk(Tokenize(s).value) && forall k :: 0 <= k < |s| ==> IsSpace(s[k]) || LexChar(s[k])
  {
    LexOk(s, 0, []);
  }

  lemma {:induction false} LexTotal(s: string, p: nat, acc: seq<string>)
    requires p <= |s|
    requires forall k :: 0 <= k < |s| ==> IsSpace(s[k]) || StartChar(s[k])
    ensures Lex(s, p, acc).Some?
    decreases |s| - p
  {
    var q := SpaceEnd(s, p);
    if q < |s| {
      assert StartChar(s[q]);
      var (e, acc') := Step(s, q, acc).value;
      LexTotal(s, e, acc');
    }
  }

  /** A line of blanks, digits, points, parentheses and operators always
      lexes: every token then starts with a character some rule takes. */
  lemma TokenizeTotal(s: string)
    requires forall k :: 0 <= k < |s| ==> IsSpace(s[k]) || StartChar(s[k])
    ensures Tokenize(s).Some?
  {
    LexTotal(s, 0, []);
  }

  lemma SpaceEndIs(s: string, i: nat, j: nat)
    requires i <= j <= |s|
    requires forall k :: i <= k < j ==> IsSpace(s[k])
    requires j == |s| || !IsSpace(s[j])
    ensures SpaceEnd(s, i) == j
  {
  }

  /** `SignedEnd` when no exponent marker follows the point run. */
  lemma SignedEndPlain(s: string, i: nat, m: nat)
    requires i <= |s| && m == PointRunEnd(s, i) && !(m < |s| && (s[m] == 'e' || s[m] == 'E'))
    ensures SignedEnd(s, i) == m
  {
  }

  /** One step of `Lex`: skip blanks, read the token at `q`, go on from `e`. */
  lemma LexStep(s: string, p: nat, acc: seq<string>, q: nat, e: nat, acc': seq<string>)
    requires p <= |s| && q == SpaceEnd(s, p) && q < |s| && e <= |s|
    requires Step(s, q, acc).Some? && Step(s, q, acc).value.0 == e && Step(s, q, acc).value.1 == acc'
    ensures Lex(s, p, acc) == Lex(s, e, acc')
  {
  }

  /** Only blanks are left: the tokens read so far are the result. */
  lemma LexEnd(s: string, p: nat, acc: seq<string>)
    requires p <= |s| && SpaceEnd(s, p) == |s|
    ensures Lex(s, p, acc) == Some(acc)
  {
  }

  // Each rule of `tokenize` at any position `q` of any line, after any
  // tokens `acc`: what it reads depends only on the characters in its own
  // window, the character that stops it and, for a sign, whether an operand
  // is expected. Chaining these steps gives the tokens of a whole line.

  /** A numeric run: digits, points, exponent markers and signs, as long as
      they go, starting with a digit or a point. */
  lemma NumberAt(s: string, q: nat, n: nat, acc: seq<string>)
    requires q < n <= |s|
    requires IsDigit(s[q]) || s[q] == '.'
    requires forall k :: q <= k < n ==> InRun(s[k])
    requires n == |s| || !InRun(s[n])
    ensures Lex(s, q, acc) == Lex(s, n, acc + [s[q..n]])
  {
    SpaceEndIs(s, q, q);
    RunEndIs(s, q, n);
    LexStep(s, q, acc, q, n, acc + [s[q..n]]);
  }

  /** A one-character token: any of `( ) + - * / ^`, except a sign where an
      operand is expected and a `(` that opens a grouped literal. */
  lemma PunctAt(s: string, q: nat, acc: seq<string>)
    requires q < |s| && IsPunct(s[q])
    requires (s[q] == '+' || s[q] == '-') ==> !OperandExpected(acc)
    requires !GroupedAt(s, q)
    ensures Lex(s, q, acc) == Lex(s, q + 1, acc + [[s[q]]])
  {
    SpaceEndIs(s, q, q);
    LexStep(s, q, acc, q, q + 1, acc + [[s[q]]]);
  }

  lemma AppendTwo(acc: seq<string>, a: string, b: string)
    ensures acc + [a] + [b] == acc + [a, b]
  {
  }

  /** After a number or `)` a sign is an operator: the sign and the numeric
      run after it are two tokens. */
  lemma SignSplitsAt(s: string, q: nat, n: nat, acc: seq<string>)
    requires q + 1 < n <= |s| && (s[q] == '+' || s[q] == '-')
    requires !OperandExpected(acc)
    requires IsDigit(s[q + 1]) || s[q + 1] == '.'
    requires forall k :: q + 1 <= k < n ==> InRun(s[k])
    requires n == |s| || !InRun(s[n])
    ensures Lex(s, q, acc) == Lex(s, n, acc + [[s[q]], s[q + 1..n]])
  {
    PunctAt(s, q, acc);
    NumberAt(s, q + 1, n, acc + [[s[q]]]);
    AppendTwo(acc, [s[q]], s[q + 1..n]);
  }

  /** The exponent part a unary sign's scan takes in at `m`: `e` or `E`, a
      sign if one follows at once, then digits (possibly none) up to `n`,
      where the digits stop. */
  predicate ExponentAt(s: string, m: nat, n: nat) {
    m < n <= |s| && (s[m] == 'e' || s[m] == 'E') && (n == |s| || !IsDigit(s[n])) &&
    if m + 1 < |s| && (s[m + 1] == '-' || s[m + 1] == '+') then
      m + 2 <= n && forall k :: m + 2 <= k < n ==> IsDigit(s[k])
    else
      forall k :: m + 1 <= k < n ==> IsDigit(s[k])
  }

  /** Where an operand is expected, a sign joins the digits and points after
      it (up to `m`) and an exponent part (up to `n`) if one follows: one
      token. */
  lemma SignJoinsAt(s: string, q: nat, m: nat, n: nat, acc: seq<string>)
    requires q < m <= n <= |s| && (s[q] == '+' || s[q] == '-')
    requires OperandExpected(acc)
    requires forall k :: q + 1 <= k < m ==> IsDigit(s[k]) || s[k] == '.'
    requires if m < n then ExponentAt(s, m, n)
             else m == |s| || !(IsDigit(s[m]) || s[m] == '.' || s[m] == 'e' || s[m] == 'E')
    ensures Lex(s, q, acc) == Lex(s, n, acc + [s[q..n]])
  {
    SpaceEndIs(s, q, q);
    PointRunEndIs(s, q + 1, m);
    if m < n {
      var j := if m + 1 < |s| && (s[m + 1] == '-' || s[m + 1] == '+') then m + 2 else m + 1;
      DigitEndIs(s, j, n);
      SignedEndExponent(s, q + 1, m, j);
    } else {
      SignedEndPlain(s, q + 1, m);
    }
    LexStep(s, q, acc, q, n, acc + [s[q..n]]);
  }

  /** `(`, a sign, then a numeric run starting with a digit or point: one
      token, the sign and the run; a `)` right after the run is skipped,
      and when there is none reading simply goes on. */
  lemma GroupedLiteralAt(s: string, q: nat, n: nat, acc: seq<string>)
    requires GroupedAt(s, q) && q + 2 < n <= |s|
    requires forall k :: q + 2 <= k < n ==> InRun(s[k])
    requires n == |s| || !InRun(s[n])
    ensures Lex(s, q, acc) ==
            Lex(s, if n < |s| && s[n] == ')' then n + 1 else n, acc + [s[q + 1..n]])
  {
    SpaceEndIs(s, q, q);
    RunEndIs(s, q + 2, n);
    LexStep(s, q, acc, q, if n < |s| && s[n] == ')' then n + 1 else n, acc + [s[q + 1..n]]);
  }

  // The same rules on a line that is just the fragment, after any tokens.

  /** A numeric run alone is one token. */
  lemma NumericRun(ts: seq<string>, d: string)
    requires |d| > 0 && (IsDigit(d[0]) || d[0] == '.')
    requires forall k :: 0 <= k < |d| ==> InRun(d[k])
    ensures Lex(d, 0, ts) == Some(ts + [d])
  {
    NumberAt(d, 0, |d|, ts);
    assert d[0..|d|] == d;
    LexEnd(d, |d|, ts + [d]);
  }

  /** The exponent part a unary sign's scan takes in: `e` or `E`, an optional
      sign, then digits (possibly none). */
  predicate ExponentPart(x: string) {
    |x| > 0 && (x[0] == 'e' || x[0] == 'E') &&
    (AllDigits(x[1..]) || (|x| > 1 && (x[1] == '-' || x[1] == '+') && AllDigits(x[2..])))
  }

  /** An exponent part placed at `n` at the end of a line is one `ExponentAt`
      reads. */
  lemma ExponentPartAt(s: string, n: nat, x: string)
    requires |s| == n + |x| && ExponentPart(x)
    requires forall k :: n <= k < |s| ==> s[k] == x[k - n]
    ensures ExponentAt(s, n, |s|)
  {
    if |x| > 1 && (x[1] == '-' || x[1] == '+') {
      assert forall k :: n + 2 <= k < |s| ==> IsDigit(s[k]) by {
        forall k | n + 2 <= k < |s| ensures IsDigit(s[k]) {
          assert s[k] == x[2..][k - n - 2];
        }
      }
    } else {
      assert forall k :: n + 1 <= k < |s| ==> IsDigit(s[k]) by {
        forall k | n + 1 <= k < |s| ensures IsDigit(s[k]) {
          assert s[k] == x[1..][k - n - 1];
        }
      }
    }
  }

  /** Where an operand is expected (at the start, after an operator or after
      `(`), a sign joins the digits and points after it and an optional
      exponent part: one token. */
  lemma SignJoins(ts: seq<string>, sg: char, m: string, x: string)
    requires sg == '+' || sg == '-'
    requires OperandExpected(ts)
    requires forall k :: 0 <= k < |m| ==> IsDigit(m[k]) || m[k] == '.'
    requires |x| == 0 || ExponentPart(x)
    ensures Lex([sg] + m + x, 0, ts) == Some(ts + [[sg] + m + x])
  {
    var s := [sg] + m + x;
    var n := |m| + 1;
    assert forall k :: 1 <= k < n ==> s[k] == m[k - 1];
    assert forall k :: n <= k < |s| ==> s[k] == x[k - n];
    if |x| > 0 {
      ExponentPartAt(s, n, x);
    }
    SignJoinsAt(s, 0, n, |s|, ts);
    assert s[0..|s|] == s;
    LexEnd(s, |s|, ts + [s]);
  }

  /** Where no operand is expected, a sign and the numeric run after it are
      two tokens. */
  lemma SignSplits(ts: seq<string>, sg: char, d: string)
    requires sg == '+' || sg == '-'
    requires !OperandExpected(ts)
    requires |d| > 0 && (IsDigit(d[0]) || d[0] == '.')
    requires forall k :: 0 <= k < |d| ==> InRun(d[k])
    ensures Lex([sg] + d, 0, ts) == Some(ts + [[sg], d])
  {
    var s := [sg] + d;
    assert forall k :: 1 <= k < |s| ==> s[k] == d[k - 1];
    SignSplitsAt(s, 0, |s|, ts);
    assert s[1..|s|] == d;
    LexEnd(s, |s|, ts + [[sg], d]);
  }

  /** `(`, a sign, then a run starting with a digit or point, then `)` if
      present: one token, the sign and the run, after any tokens; the
      parentheses are dropped. */
  lemma GroupedLiteral(ts: seq<string>, sg: char, d: string, close: string)
    requires sg == '+' || sg == '-'
    requires |d| > 0 && (IsDigit(d[0]) || d[0] == '.')
    requires forall k :: 0 <= k < |d| ==> InRun(d[k])
    requires close == "" || close == ")"
    ensures Lex("(" + [sg] + d + close, 0, ts) == Some(ts + [[sg] + d])
  {
    var s := "(" + [sg] + d + close;
    var e := |d| + 2;
    assert s[0] == '(' && s[1] == sg && s[2] == d[0];
    assert forall k :: 2 <= k < e ==> s[k] == d[k - 2];
    GroupedLiteralAt(s, 0, e, ts);
    assert s[1..e] == [sg] + d;
    LexEnd(s, |s|, ts + [[sg] + d]);
  }

  /** `2-1` is one token. */
  lemma RunExample()
    ensures Tokenize("2-1") == Some(["2-1"])
  {
    NumericRun([], "2-1");
  }

  /** The steps of the line `(-1.0)`, on any string with those characters. */
  lemma GroupedSteps(s: string)
    requires |s| == 6 && s[0] == '(' && s[1] == '-' && s[2] == '1' && s[3] == '.' && s[4] == '0'
    requires s[5] == ')'
    ensures Tokenize(s) == Some(["-1.0"])
  {
    var none: seq<string> := [];
    GroupedLiteralAt(s, 0, 5, none);
    assert s[1..5] == "-1.0";
    assert none + [s[1..5]] == ["-1.0"];
    LexEnd(s, 6, ["-1.0"]);
  }

  /** `(-1.0)` is the one token `-1.0`. */
  lemma GroupedExample()
    ensures Tokenize("(-1.0)") == Some(["-1.0"])
  {
    GroupedSteps("(-1.0)");
  }

  /** `-3` is one token. */
  lemma UnaryExample()
    ensures Tokenize("-3") == Some(["-3"])
  {
    SignJoins([], '-', "3", "");
    assert ['-'] + "3" + "" == "-3";
  }

  /** The steps of the line `2*-3`, on any string with those characters. */
  lemma SignAfterOperatorSteps(s: string)
    requires |s| == 4 && s[0] == '2' && s[1] == '*' && s[2] == '-' && s[3] == '3'
    ensures Tokenize(s) == Some(["2", "*", "-3"])
  {
    var t1, t2, t3 := ["2"], ["2", "*"], ["2", "*", "-3"];
    var none: seq<string> := [];
    NumberAt(s, 0, 1, none);
    assert s[0..1] == "2";
    assert none + [s[0..1]] == t1;
    PunctAt(s, 1, t1);
    assert t1 + [[s[1]]] == t2;
    SignJoinsAt(s, 2, 4, 4, t2);
    assert s[2..4] == "-3";
    assert t2 + [s[2..4]] == t3;
    LexEnd(s, 4, t3);
  }

  /** After `*` the minus joins the 3. */
  lemma SignAfterOperatorExample()
    ensures Tokenize("2*-3") == Some(["2", "*", "-3"])
  {
    SignAfterOperatorSteps("2*-3");
  }

  /** The steps of the line `2 -3`, on any string with those characters. */
  lemma SignAfterNumberSteps(s: string)
    requires |s| == 4 && s[0] == '2' && s[1] == ' ' && s[2] == '-' && s[3] == '3'
    ensures Tokenize(s) == Some(["2", "-", "3"])
  {
    var t1, t3 := ["2"], ["2", "-", "3"];
    var none: seq<string> := [];
    NumberAt(s, 0, 1, none);
    assert s[0..1] == "2";
    assert none + [s[0..1]] == t1;
    SpaceEndIs(s, 1, 2);
    LexAfterSpaces(s, 1, t1);
    SignSplitsAt(s, 2, 4, t1);
    assert s[3..4] == "3";
    assert t1 + [[s[2]], s[3..4]] == t3;
    LexEnd(s, 4, t3);
  }

  /** After a number the minus is an operator, even with a blank before it
      and none after. */
  lemma SignAfterNumberExample()
    ensures Tokenize("2 -3") == Some(["2", "-", "3"])
  {
    SignAfterNumberSteps("2 -3");
  }

  /** The steps of the line `-1e+2 (+4`, on any string with those
      characters. */
  lemma ExponentThenGroupSteps(s: string)
    requires |s| == 9 && s[0] == '-' && s[1] == '1' && s[2] == 'e' && s[3] == '+' && s[4] == '2'
    requires s[5] == ' ' && s[6] == '(' && s[7] == '+' && s[8] == '4'
    ensures Tokenize(s) == Some(["-1e+2", "+4"])
  {
    var t1, t2 := ["-1e+2"], ["-1e+2", "+4"];
    var none: seq<string> := [];
    assert ExponentAt(s, 2, 5);
    SignJoinsAt(s, 0, 2, 5, none);
    assert s[0..5] == "-1e+2";
    assert none + [s[0..5]] == t1;
    SpaceEndIs(s, 5, 6);
    LexAfterSpaces(s, 5, t1);
    assert GroupedAt(s, 6);
    GroupedLiteralAt(s, 6, 9, t1);
    assert s[7..9] == "+4";
    assert t1 + [s[7..9]] == t2;
    LexEnd(s, 9, t2);
  }

  /** A literal with a signed exponent cut off by a blank, then a grouped
      literal whose `)` is missing at the end of the line. */
  lemma ExponentThenGroupExample()
    ensures Tokenize("-1e+2 (+4") == Some(["-1e+2", "+4"])
  {
    ExponentThenGroupSteps("-1e+2 (+4");
  }
}
