/** The term reader of the polynomial program (C.c `parse_polynomial`):
    a cursor walks the text term by term and adds each term into an array
    of 101 coefficients, index = degree. */
module PolyParse {
  import opened Common
  import opened PolyEdit

  const MaxDegree: nat := 100

  function Zeros(n: nat): (z: seq<int>)
    ensures |z| == n && forall k :: 0 <= k < n ==> z[k] == 0
  {
    seq(n, k => 0)
  }

  /** The characters a term can be made of once spaces are gone. */
  predicate PolyChar(c: char) {
    c == '+' || c == '-' || IsDigit(c) || c == 'x' || c == '^'
  }

  /** Texts on which the reader always moves on: only term characters, and
      every `^` right after an `x`. On any other text the reader stops
      advancing and never returns. */
  predicate Parsable(s: string) {
    forall k :: 0 <= k < |s| ==> PolyChar(s[k]) && (s[k] == '^' ==> AfterX(s, k))
  }

  predicate AfterX(s: string, k: nat)
    requires k < |s|
  {
    k > 0 && s[k - 1] == 'x'
  }

  lemma ParsableStart(s: string)
    requires Parsable(s)
    ensures |s| == 0 || s[0] != '^'
  {
    if |s| > 0 {
      assert PolyChar(s[0]);
    }
  }

  /** One term: the sign in force after it, its coefficient and degree, and
      where the next term starts. */
  datatype Term = Term(sign: int, coef: nat, degree: nat, next: nat)

  /** The term at `i`: an optional sign (otherwise the previous term's sign
      stays), then the rest of the term. */
  function ReadTerm(s: string, i: nat, sign: int): (r: Term)
    requires i < |s|
    ensures i <= r.next <= |s|
  {
    if s[i] == '+' then ReadUnsigned(s, i + 1, 1)
    else if s[i] == '-' then ReadUnsigned(s, i + 1, -1)
    else ReadUnsigned(s, i, sign)
  }

  /** A digit run (the coefficient, none meaning 0 without `x` and 1 with
      it), then optionally `x`. */
  function ReadUnsigned(s: string, a: nat, sign: int): (r: Term)
    requires a <= |s|
    ensures a <= r.next <= |s|
  {
    var b := DigitEnd(s, a);
    var c := DigitsValue(s[a..b]);
    if b < |s| && s[b] == 'x' then ReadPower(s, b + 1, sign, if b > a then c else 1)
    else Term(sign, c, 0, b)
  }

  /** After `x`: `^` and the degree digits, or degree 1. */
  function ReadPower(s: string, b: nat, sign: int, coef: nat): (r: Term)
    requires 0 < b <= |s| && s[b - 1] == 'x'
    ensures b <= r.next <= |s|
  {
    if b < |s| && s[b] == '^' then
      var e := DigitEnd(s, b + 1);
      Term(sign, coef, DigitsValue(s[b + 1..e]), e)
    else Term(sign, coef, 1, b)
  }

  /** A `^` in a readable text comes right after an `x`. */
  lemma Caret(s: string, k: nat)
    requires Parsable(s) && k < |s|
    ensures s[k] == '^' ==> k > 0 && s[k - 1] == 'x'
  {
    assert PolyChar(s[k]) && (s[k] == '^' ==> AfterX(s, k));
  }

  lemma PowerStops(s: string, b: nat, sign: int, coef: nat)
    requires Parsable(s) && 0 < b <= |s| && s[b - 1] == 'x'
    ensures ReadPower(s, b, sign, coef).next == |s| || s[ReadPower(s, b, sign, coef).next] != '^'
  {
    var e := ReadPower(s, b, sign, coef).next;
    if e < |s| {
      Caret(s, e);
    }
  }

  lemma UnsignedStops(s: string, a: nat, sign: int)
    requires Parsable(s) && a <= |s| && (a == |s| || s[a] != '^')
    ensures a < |s| && (IsDigit(s[a]) || s[a] == 'x') ==> a < ReadUnsigned(s, a, sign).next
    ensures ReadUnsigned(s, a, sign).next == |s| || s[ReadUnsigned(s, a, sign).next] != '^'
  {
    var b := DigitEnd(s, a);
    if b < |s| && s[b] == 'x' {
      PowerStops(s, b + 1, sign, if b > a then DigitsValue(s[a..b]) else 1);
    } else if b < |s| && b > a {
      Caret(s, b);
      assert IsDigit(s[b - 1]);
    }
  }

  /** Under the grammar the reader always moves on, and never stops in front
      of a `^`. */
  lemma TermAdvances(s: string, i: nat, sign: int)
    requires Parsable(s) && i < |s| && s[i] != '^'
    ensures i < ReadTerm(s, i, sign).next
    ensures ReadTerm(s, i, sign).next == |s| || s[ReadTerm(s, i, sign).next] != '^'
  {
    assert PolyChar(s[i]);
    if s[i] == '+' || s[i] == '-' {
      if i + 1 < |s| {
        Caret(s, i + 1);
      }
      UnsignedStops(s, i + 1, if s[i] == '+' then 1 else -1);
    } else {
      UnsignedStops(s, i, sign);
    }
  }

  /** Adds `v` into the coefficient of degree `d`; degrees above 100 are
      dropped. */
  function AddTerm(acc: seq<int>, d: nat, v: int): (r: seq<int>)
    ensures |r| == |acc|
  {
    if d <= MaxDegree && d < |acc| then acc[d := acc[d] + v] else acc
  }

  /** The coefficients after reading the terms of `s[i..]` into `acc`. */
  function ParseFrom(s: string, i: nat, sign: int, acc: seq<int>): (r: seq<int>)
    requires Parsable(s) && i <= |s| && (i == |s| || s[i] != '^')
    ensures |r| == |acc|
    decreases |s| - i
  {
    if i == |s| then acc
    else
      var t := ReadTerm(s, i, sign);
      TermAdvances(s, i, sign);
      ParseFrom(s, t.next, t.sign, AddTerm(acc, t.degree, t.sign * t.coef))
  }

  /** One term read off the front. */
  lemma ParseFromStep(s: string, i: nat, sign: int, acc: seq<int>, t: Term)
    requires Parsable(s) && i < |s| && s[i] != '^' && t == ReadTerm(s, i, sign)
    ensures i < t.next <= |s| && (t.next == |s| || s[t.next] != '^')
    ensures ParseFrom(s, i, sign, acc) == ParseFrom(s, t.next, t.sign, AddTerm(acc, t.degree, t.sign * t.coef))
  {
    TermAdvances(s, i, sign);
  }

  function Parse(s: string): (r: seq<int>)
    requires Parsable(s)
    ensures |r| == MaxDegree + 1
  {
    ParsableStart(s);
    ParseFrom(s, 0, 1, Zeros(MaxDegree + 1))
  }

  /** The digit loops of `parse_polynomial`: `v = v * 10 + (c - '0')` while
      the character is a digit (the NUL stops it). */
  method ReadDigits(line: array<char>, ghost n: nat, p: nat) returns (q: nat, v: nat)
    requires CString(line, n) && p <= n
    ensures q == DigitEnd(line[..n], p)
    ensures v == DigitsValue(line[..n][p..q])
  {
    ghost var s := line[..n];
    q, v := p, 0;
    while IsDigit(line[q])
      invariant p <= q <= n
      invariant forall k :: p <= k < q ==> IsDigit(s[k])
      invariant AllDigits(s[p..q]) && v == DigitsValue(s[p..q])
      decreases n - q
    {
      assert s[p..q + 1][..q - p] == s[p..q];
      v := v * 10 + DigitValue(line[q]);
      q := q + 1;
    }
    DigitEndIs(s, p, q);
  }

  /** One pass of the loop of `parse_polynomial`, up to the update of the
      coefficient. */
  method ReadTermAt(line: array<char>, ghost n: nat, i: nat, sign: int) returns (r: Term)
    requires CString(line, n) && i < n
    ensures r == ReadTerm(line[..n], i, sign)
  {
    var sg := sign;
    var p := i;
    if line[p] == '+' {
      sg, p := 1, p + 1;
    } else if line[p] == '-' {
      sg, p := -1, p + 1;
    }
    r := ReadUnsignedAt(line, n, p, sg);
  }

  method ReadUnsignedAt(line: array<char>, ghost n: nat, p: nat, sign: int) returns (r: Term)
    requires CString(line, n) && p <= n
    ensures r == ReadUnsigned(line[..n], p, sign)
  {
    ghost var s := line[..n];
    var b, coef := ReadDigits(line, n, p);
    if line[b] == 'x' {
      assert b < n && s[b] == 'x';
      if b == p {
        coef := 1;
      }
      r := ReadPowerAt(line, n, b + 1, sign, coef);
    } else {
      assert !(b < n && s[b] == 'x');
      r := Term(sign, coef, 0, b);
    }
  }

  method ReadPowerAt(line: array<char>, ghost n: nat, b: nat, sign: int, coef: nat) returns (r: Term)
    requires CString(line, n) && 0 < b <= n && line[b - 1] == 'x'
    ensures r == ReadPower(line[..n], b, sign, coef)
  {
    ghost var s := line[..n];
    if line[b] == '^' {
      assert b < n && s[b] == '^';
      var e, degree := ReadDigits(line, n, b + 1);
      r := Term(sign, coef, degree, e);
    } else {
      assert !(b < n && s[b] == '^');
      r := Term(sign, coef, 1, b);
    }
  }

  /** `memset(coeff, 0, ...)` */
  method ZeroFill(coeff: array<int>)
    modifies coeff
    ensures coeff[..] == Zeros(coeff.Length)
  {
    var k := 0;
    while k < coeff.Length
      invariant k <= coeff.Length
      invariant forall j :: 0 <= j < k ==> coeff[j] == 0
    {
      coeff[k] := 0;
      k := k + 1;
    }
  }

  /** `parse_polynomial`: zeroes the 101 coefficients, then adds each term
      `sign * coef` into `coeff[degree]`. */
  method ParsePolynomial(line: array<char>, ghost n: nat, coeff: array<int>)
    requires CString(line, n) && Parsable(line[..n])
    requires coeff.Length == MaxDegree + 1
    modifies coeff
    ensures coeff[..] == Parse(line[..n])
  {
    ghost var s := line[..n];
    ParsableStart(s);
    ZeroFill(coeff);
    var sign := 1;
    var i := 0;
    while line[i] != '\0'
      invariant i <= n && (i == n || s[i] != '^')
      invariant ParseFrom(s, i, sign, coeff[..]) == Parse(s)
      decreases n - i
    {
      var t := ReadTermAt(line, n, i, sign);
      ghost var before := coeff[..];
      ParseFromStep(s, i, sign, before, t);
      AddInto(coeff, t.degree, t.sign * t.coef);
      sign, i := t.sign, t.next;
    }
  }

  /** The update of `parse_polynomial`: `coeff[degree] += sign * coef` when
      the degree is at most 100. */
  method AddInto(coeff: array<int>, d: nat, v: int)
    requires coeff.Length == MaxDegree + 1
    modifies coeff
    ensures coeff[..] == AddTerm(old(coeff[..]), d, v)
  {
    if d <= MaxDegree {
      coeff[d] := coeff[d] + v;
    }
  }
}
