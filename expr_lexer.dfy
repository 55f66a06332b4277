/** The lexer of the expression evaluator (main.c `tokenize`): splits a
    normalised line into number, operator and parenthesis tokens, gluing
    signs onto numbers where an operand is expected. */
module Lexer {
  import opened Common
  import opened Tokens

  /** Characters a numeric run takes in: digits, `.`, exponent markers and
      both signs (so `2-1` is read as one token). */
  predicate InRun(c: char) {
    IsDigit(c) || c == '.' || c == 'e' || c == 'E' || c == '-' || c == '+'
  }

  /** Characters that may start a token. */
  predicate StartChar(c: char) {
    IsDigit(c) || c == '.' || IsPunct(c)
  }

  /** The one-character tokens `( ) + - * / ^`. */
  predicate IsPunct(c: char) {
    c == '(' || c == ')' || c == '+' || c == '-' || c == '*' || c == '/' || c == '^'
  }

  /** Every character that can end up inside a token. */
  predicate LexChar(c: char) {
    InRun(c) || IsPunct(c)
  }

  function SpaceEnd(s: string, i: nat): (j: nat)
    requires i <= |s|
    ensures i <= j <= |s|
    ensures forall k :: i <= k < j ==> IsSpace(s[k])
    ensures j == |s| || !IsSpace(s[j])
    decreases |s| - i
  {
    if i < |s| && IsSpace(s[i]) then SpaceEnd(s, i + 1) else i
  }

  function RunEnd(s: string, i: nat): (j: nat)
    requires i <= |s|
    ensures i <= j <= |s|
    ensures forall k :: i <= k < j ==> InRun(s[k])
    ensures j == |s| || !InRun(s[j])
    decreases |s| - i
  {
    if i < |s| && InRun(s[i]) then RunEnd(s, i + 1) else i
  }

  /** The end of the digits-and-points run that follows a unary sign. */
  function PointRunEnd(s: string, i: nat): (j: nat)
    requires i <= |s|
    ensures i <= j <= |s|
    ensures forall k :: i <= k < j ==> IsDigit(s[k]) || s[k] == '.'
    ensures j == |s| || !(IsDigit(s[j]) || s[j] == '.')
    decreases |s| - i
  {
    if i < |s| && (IsDigit(s[i]) || s[i] == '.') then PointRunEnd(s, i + 1) else i
  }

  /** After a unary sign at `i - 1`: digits and points, then optionally `e` or
      `E`, an optional sign and digits. */
  function SignedEnd(s: string, i: nat): (j: nat)
    requires i <= |s|
    ensures i <= j <= |s|
    ensures forall k :: i <= k < j ==> InRun(s[k])
  {
    var m := PointRunEnd(s, i);
    if m < |s| && (s[m] == 'e' || s[m] == 'E') then
      var k := if m + 1 < |s| && (s[m + 1] == '-' || s[m + 1] == '+') then m + 2 else m + 1;
      DigitEnd(s, k)
    else m
  }

  /** `(` followed at once by a sign and a digit or point. */
  predicate GroupedAt(s: string, q: nat) {
    q + 2 < |s| && s[q] == '(' && (s[q + 1] == '-' || s[q + 1] == '+') &&
    (IsDigit(s[q + 2]) || s[q + 2] == '.')
  }

  /** A sign is unary at the start, after an operator token or after `(`. */
  predicate OperandExpected(acc: seq<string>) {
    |acc| == 0 || IsOperator(acc[|acc| - 1]) || acc[|acc| - 1] == "("
  }

  /** The token that starts at the non-blank position `q`: where reading goes
      on and the tokens so far, or `None` when no rule takes `s[q]`. */
  function Step(s: string, q: nat, acc: seq<string>): (r: Option<(nat, seq<string>)>)
    requires q < |s|
    ensures r.Some? ==> q < r.value.0 <= |s| && |r.value.1| == |acc| + 1 && r.value.1[..|acc|] == acc
  {
    if GroupedAt(s, q) then
      var e := RunEnd(s, q + 2);
      Some((if e < |s| && s[e] == ')' then e + 1 else e, acc + [s[q + 1..e]]))
    else if (s[q] == '+' || s[q] == '-') && OperandExpected(acc) then
      var e := SignedEnd(s, q + 1);
      Some((e, acc + [s[q..e]]))
    else if IsPunct(s[q]) then
      Some((q + 1, acc + [[s[q]]]))
    else if IsDigit(s[q]) || s[q] == '.' then
      var e := RunEnd(s, q);
      Some((e, acc + [s[q..e]]))
    else None
  }

  /** The tokens of `s[p..]`, appended to those already read (`acc`), or
      `None` when a token would start with a character no rule takes. */
  function Lex(s: string, p: nat, acc: seq<string>): Option<seq<string>>
    requires p <= |s|
    decreases |s| - p
  {
    var q := SpaceEnd(s, p);
    if q == |s| then Some(acc)
    else match Step(s, q, acc)
      case None => None
      case Some((e, acc')) => Lex(s, e, acc')
  }

  function Tokenize(s: string): Option<seq<string>> {
    Lex(s, 0, [])
  }

  lemma LexAfterSpaces(s: string, p: nat, acc: seq<string>)
    requires p <= |s|
    ensures Lex(s, p, acc) == Lex(s, SpaceEnd(s, p), acc)
  {
    var q := SpaceEnd(s, p);
    assert SpaceEnd(s, q) == q;
  }

  /** `while (isspace(*p)) p++;` */
  method SkipSpaces(line: string, p: nat) returns (q: nat)
    requires p <= |line|
    ensures q == SpaceEnd(line, p)
  {
    q := p;
    while q < |line| && IsSpace(line[q])
      invariant p <= q <= |line|
      invariant SpaceEnd(line, q) == SpaceEnd(line, p)
      decreases |line| - q
    {
      q := q + 1;
    }
  }

  /** The copy loop of a grouped literal or an unsigned number. */
  method ScanRun(line: string, p: nat) returns (q: nat)
    requires p <= |line|
    ensures q == RunEnd(line, p)
  {
    q := p;
    while q < |line| && InRun(line[q])
      invariant p <= q <= |line|
      invariant RunEnd(line, q) == RunEnd(line, p)
      decreases |line| - q
    {
      q := q + 1;
    }
  }

  /** The copy loops after a unary sign. */
  method ScanSigned(line: string, p: nat) returns (q: nat)
    requires p <= |line|
    ensures q == SignedEnd(line, p)
  {
    q := p;
    while q < |line| && (IsDigit(line[q]) || line[q] == '.')
      invariant p <= q <= |line|
      invariant PointRunEnd(line, q) == PointRunEnd(line, p)
      decreases |line| - q
    {
      q := q + 1;
    }
    ghost var m := q;
    assert m == PointRunEnd(line, p);
    if q < |line| && (line[q] == 'e' || line[q] == 'E') {
      q := q + 1;
      if q < |line| && (line[q] == '-' || line[q] == '+') {
        q := q + 1;
      }
      ghost var k := q;
      assert k == if m + 1 < |line| && (line[m + 1] == '-' || line[m + 1] == '+') then m + 2 else m + 1;
      while q < |line| && IsDigit(line[q])
        invariant k <= q <= |line|
        invariant DigitEnd(line, q) == DigitEnd(line, k)
        decreases |line| - q
      {
        q := q + 1;
      }
      assert q == DigitEnd(line, k);
      SignedEndExponent(line, p, m, k);
    }
  }

  /** `SignedEnd` once the point run has been found to end at an exponent
      marker `m` and the exponent digits to start at `k`. */
  lemma SignedEndExponent(s: string, i: nat, m: nat, k: nat)
    requires i <= |s| && m == PointRunEnd(s, i) && m < |s| && (s[m] == 'e' || s[m] == 'E')
    requires k == if m + 1 < |s| && (s[m + 1] == '-' || s[m + 1] == '+') then m + 2 else m + 1
    ensures k <= |s| && SignedEnd(s, i) == DigitEnd(s, k)
  {
  }

  /** One pass of the loop of `tokenize` at a non-blank position. */
  method ReadToken(line: string, p: nat, tokens: seq<string>) returns (r: Option<(nat, seq<string>)>)
    requires p < |line|
    ensures r == Step(line, p, tokens)
  {
    if p + 2 < |line| && line[p] == '(' && (line[p + 1] == '-' || line[p + 1] == '+') &&
       (IsDigit(line[p + 2]) || line[p + 2] == '.') {
      // "(-1.0)": the sign and the run form one token; "(" is not emitted
      var e := ScanRun(line, p + 2);
      var token := line[p + 1..e];
      if e < |line| && line[e] == ')' {
        e := e + 1;
      }
      r := Some((e, tokens + [token]));
    } else if (line[p] == '+' || line[p] == '-') &&
              (|tokens| == 0 || IsOperator(tokens[|tokens| - 1]) || tokens[|tokens| - 1] == "(") {
      var e := ScanSigned(line, p + 1);
      r := Some((e, tokens + [line[p..e]]));
    } else if IsPunct(line[p]) {
      r := Some((p + 1, tokens + [[line[p]]]));
    } else if IsDigit(line[p]) || line[p] == '.' {
      var e := ScanRun(line, p);
      r := Some((e, tokens + [line[p..e]]));
    } else {
      r := None;
    }
  }

  /** `tokenize`: returns the number of tokens and the tokens, or -1. */
  method TokenizeLine(line: string) returns (count: int, tokens: seq<string>)
    ensures count == -1 <==> Tokenize(line).None?
    ensures count != -1 ==> count == |tokens| && Tokenize(line) == Some(tokens)
  {
    tokens := [];
    var p := 0;
    while p < |line|
      invariant p <= |line|
      invariant Lex(line, p, tokens) == Tokenize(line)
      decreases |line| - p
    {
      LexAfterSpaces(line, p, tokens);
      p := SkipSpaces(line, p);
      if p == |line| {
        break;
      }
      assert SpaceEnd(line, p) == p;
      var r := ReadToken(line, p, tokens);
      match r
      case None =>
        return -1, tokens;
      case Some((e, next)) =>
        p, tokens := e, next;
    }
    count := |tokens|;
  }
}
