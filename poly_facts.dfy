/** What the printer and the reader of the polynomial program say about each
    other: the printed text, once its spaces are removed, reads back as the
    coefficients it was printed from. */
module PolyFacts {
  import opened Common
  import opened PolyEdit
  import opened PolyParse
  import opened PolyPrint

  function SignPart(v: int, first: bool): string {
    (if !first && v > 0 then "+" else "") + (if v < 0 then "-" else "")
  }

  function MagnitudePart(v: int, d: nat): string {
    if Abs(v) != 1 || d == 0 then NatText(Abs(v)) else ""
  }

  function PowerPart(d: nat): string {
    if d > 1 then "^" + NatText(d) else ""
  }

  function VariablePart(d: nat): string {
    if d >= 1 then "x" + PowerPart(d) else ""
  }

  /** A term as the reader sees it, spaces removed. */
  function CompactTerm(v: int, d: nat, first: bool): string {
    SignPart(v, first) + MagnitudePart(v, d) + VariablePart(d)
  }

  function CompactTerms(c: seq<int>, i: int, first: bool): string
    requires |c| > MaxDegree && -1 <= i <= MaxDegree
    decreases i + 1
  {
    if i < 0 then (if first then "0" else "")
    else if c[i] == 0 then CompactTerms(c, i - 1, first)
    else CompactTerm(c[i], i, first) + CompactTerms(c, i - 1, false)
  }

  lemma DigitsHaveNoSpace(s: string)
    requires AllDigits(s)
    ensures NoSpaces(s) == s
  {
    assert forall k :: 0 <= k < |s| ==> IsDigit(s[k]);
    NoSpacesSound(s);
  }

  lemma VariableHasNoSpace(d: nat)
    ensures NoSpaces(VariablePart(d)) == VariablePart(d)
  {
    if d >= 1 {
      var n := NatText(d);
      assert forall k :: 0 <= k < |n| ==> IsDigit(n[k]);
      var x := VariablePart(d);
      assert forall k :: 0 <= k < |x| ==> x[k] != ' ' by {
        forall k | 0 <= k < |x| ensures x[k] != ' ' {
          if k >= 2 { assert x[k] == n[k - 2]; }
        }
      }
    }
    NoSpacesSound(VariablePart(d));
  }

  lemma SignHasNoSpace(v: int, first: bool)
    ensures NoSpaces((if !first && v > 0 then " + " else "") + (if v < 0 then " - " else "")) == SignPart(v, first)
  {
    var a := if !first && v > 0 then " + " else "";
    var b := if v < 0 then " - " else "";
    NoSpacesAppend(a, b);
    assert NoSpaces(" + ") == "+";
    assert NoSpaces(" - ") == "-";
  }

  lemma CompactTermIs(v: int, d: nat, first: bool)
    ensures NoSpaces(TermText(v, d, first)) == CompactTerm(v, d, first)
  {
    var ab := (if !first && v > 0 then " + " else "") + (if v < 0 then " - " else "");
    var m := MagnitudePart(v, d);
    var x := VariablePart(d);
    assert TermText(v, d, first) == ab + m + x;
    NoSpacesAppend(ab + m, x);
    NoSpacesAppend(ab, m);
    SignHasNoSpace(v, first);
    DigitsHaveNoSpace(m);
    VariableHasNoSpace(d);
  }

  lemma {:induction false} CompactTermsAre(c: seq<int>, i: int, first: bool)
    requires |c| > MaxDegree && -1 <= i <= MaxDegree
    ensures NoSpaces(Terms(c, i, first)) == CompactTerms(c, i, first)
    decreases i + 1
  {
    if i < 0 {
      assert NoSpaces("0") == "0";
    } else if c[i] == 0 {
      CompactTermsAre(c, i - 1, first);
    } else {
      CompactTermsAre(c, i - 1, false);
      CompactTermIs(c[i], i, first);
      NoSpacesAppend(TermText(c[i], i, first), Terms(c, i - 1, false));
    }
  }

  /** Two readable texts side by side are readable: a `^` cannot start the
      second. */
  lemma ParsableAppend(p: string, q: string)
    requires Parsable(p) && Parsable(q)
    ensures Parsable(p + q)
  {
    ParsableStart(q);
    forall k | 0 <= k < |p + q|
      ensures PolyChar((p + q)[k]) && ((p + q)[k] == '^' ==> AfterX(p + q, k))
    {
      if k < |p| {
        assert (p + q)[k] == p[k];
        if p[k] == '^' { assert AfterX(p, k); }
      } else {
        assert (p + q)[k] == q[k - |p|];
        if q[k - |p|] == '^' { assert AfterX(q, k - |p|); }
      }
    }
  }

  lemma DigitsParsable(s: string)
    requires AllDigits(s)
    ensures Parsable(s)
  {
    assert forall k :: 0 <= k < |s| ==> IsDigit(s[k]);
  }

  lemma CompactTermParsable(v: int, d: nat, first: bool)
    ensures Parsable(CompactTerm(v, d, first))
  {
    var sp, m, x := SignPart(v, first), MagnitudePart(v, d), VariablePart(d);
    assert Parsable(sp) by {
      assert forall k :: 0 <= k < |sp| ==> sp[k] == '+' || sp[k] == '-';
    }
    assert Parsable(m) by {
      DigitsParsable(m);
    }
    assert Parsable(x) by {
      VariableParsable(d);
    }
    ParsableAppend(sp, m);
    ParsableAppend(sp + m, x);
  }

  /** `x`, `x^` and a power's digits are readable. */
  lemma VariableParsable(d: nat)
    ensures Parsable(VariablePart(d))
  {
    var x := VariablePart(d);
    if d >= 1 {
      var n := NatText(d);
      assert forall k :: 0 <= k < |n| ==> IsDigit(n[k]);
      forall k | 0 <= k < |x|
        ensures PolyChar(x[k]) && (x[k] == '^' ==> AfterX(x, k))
      {
        if k >= 2 {
          assert x[k] == n[k - 2];
        }
      }
    }
  }

  /** The printed text, spaces removed, is readable; when it does not come
      first it starts with its sign. */
  lemma {:induction false} CompactTermsParsable(c: seq<int>, i: int, first: bool)
    requires |c| > MaxDegree && -1 <= i <= MaxDegree
    ensures Parsable(CompactTerms(c, i, first))
    ensures !first ==> CompactTerms(c, i, first) == [] ||
                       CompactTerms(c, i, first)[0] == '+' || CompactTerms(c, i, first)[0] == '-'
    decreases i + 1
  {
    if i < 0 {
      assert Parsable("0") by { assert IsDigit("0"[0]); }
    } else if c[i] == 0 {
      CompactTermsParsable(c, i - 1, first);
    } else {
      CompactTermsParsable(c, i - 1, false);
      CompactTermParsable(c[i], i, first);
      ParsableAppend(CompactTerm(c[i], i, first), CompactTerms(c, i - 1, false));
      if !first {
        assert SignPart(c[i], first) != [];
      }
    }
  }

  /** Where a printed term ends: the end of the text or the next sign. */
  predicate Boundary(w: string, q: nat)
    requires q <= |w|
  {
    q == |w| || w[q] == '+' || w[q] == '-'
  }

  lemma DigitsAt(w: string, q: nat, n: string)
    requires AllDigits(n) && q + |n| <= |w| && w[q..q + |n|] == n
    requires q + |n| == |w| || !IsDigit(w[q + |n|])
    ensures DigitEnd(w, q) == q + |n|
    ensures DigitsValue(w[q..DigitEnd(w, q)]) == DigitsValue(n)
  {
    forall k | q <= k < q + |n|
      ensures IsDigit(w[k])
    {
      assert w[k] == n[k - q];
    }
    DigitEndIs(w, q, q + |n|);
  }

  lemma PowerReads(w: string, q: nat, d: nat, sign: int, coef: nat, e: nat)
    requires 1 <= d && 0 < q <= |w| && w[q - 1] == 'x'
    requires e == q + |PowerPart(d)| && e <= |w| && w[q..e] == PowerPart(d)
    requires Boundary(w, e)
    ensures ReadPower(w, q, sign, coef) == Term(sign, coef, d, e)
  {
    if d > 1 {
      var n := NatText(d);
      assert w[q] == PowerPart(d)[0];
      assert w[q + 1..e] == PowerPart(d)[1..];
      DigitsAt(w, q + 1, n);
      NatTextValue(d);
    }
  }

  /** A constant term: digits up to a sign or the end. */
  lemma ConstantReads(w: string, a: nat, n: string, sign: int, e: nat)
    requires AllDigits(n) && e == a + |n| && e <= |w| && w[a..e] == n
    requires Boundary(w, e)
    ensures ReadUnsigned(w, a, sign) == Term(sign, DigitsValue(n), 0, e)
  {
    DigitsAt(w, a, n);
  }

  /** A term with `x`: optional digits, then `x`. */
  lemma VariableReads(w: string, a: nat, n: string, q: nat, coef: nat, sign: int)
    requires AllDigits(n) && a + |n| < |w| && w[a..a + |n|] == n && w[a + |n|] == 'x' && q == a + |n| + 1
    requires if n == [] then coef == 1 else coef == DigitsValue(n)
    ensures ReadUnsigned(w, a, sign) == ReadPower(w, q, sign, coef)
  {
    DigitsAt(w, a, n);
    ReadsThroughX(w, a, a + |n|, q, sign, coef);
  }

  /** Digits from `a` up to an `x` at `b`: the reader goes on after the `x`,
      with the digits (or 1 when there are none) as coefficient. */
  lemma ReadsThroughX(w: string, a: nat, b: nat, b1: nat, sign: int, coef: nat)
    requires a <= b < |w| && DigitEnd(w, a) == b && w[b] == 'x' && b1 == b + 1
    requires coef == if b > a then DigitsValue(w[a..b]) else 1
    ensures ReadUnsigned(w, a, sign) == ReadPower(w, b1, sign, coef)
  {
  }

  lemma SliceSplit(w: string, a: nat, m: string, x: string, e: nat)
    requires e == a + |m| + |x| && e <= |w| && w[a..e] == m + x
    ensures w[a..a + |m|] == m && w[a + |m|..e] == x
  {
    assert w[a..a + |m|] == w[a..e][..|m|];
    assert w[a + |m|..e] == w[a..e][|m|..];
  }

  /** `x` followed by the printed power, up to a sign or the end. */
  lemma VariablePartReads(q: nat, q1: nat, d: nat, sign: int, coef: nat, w: string, x: string, e: nat)
    requires d >= 1 && x == VariablePart(d) && q1 == q + 1
    requires e == q + |x| && e <= |w| && w[q..e] == x && Boundary(w, e)
    ensures q < |w| && w[q] == 'x'
    ensures ReadPower(w, q1, sign, coef) == Term(sign, coef, d, e)
  {
    SliceSplit(w, q, "x", PowerPart(d), e);
    assert w[q] == w[q..q1][0];
    PowerReads(w, q1, d, sign, coef, e);
  }

  /** The printed magnitude is a digit run worth the coefficient's absolute
      value, left out only for a coefficient of 1 or -1 on a non-constant
      term. */
  lemma MagnitudeFacts(v: int, d: nat)
    ensures AllDigits(MagnitudePart(v, d))
    ensures MagnitudePart(v, d) == [] ==> Abs(v) == 1 && d >= 1
    ensures MagnitudePart(v, d) != [] ==> DigitsValue(MagnitudePart(v, d)) == Abs(v)
  {
    if Abs(v) != 1 || d == 0 {
      NatTextValue(Abs(v));
    }
  }

  lemma VariableTermReads(w: string, a: nat, m: string, x: string, d: nat, sign: int, coef: nat, e: nat)
    requires AllDigits(m) && d >= 1 && x == VariablePart(d)
    requires if m == [] then coef == 1 else DigitsValue(m) == coef
    requires e == a + |m| + |x| && e <= |w| && w[a..a + |m|] == m
    requires w[a + |m|..e] == x
    requires Boundary(w, e)
    ensures ReadUnsigned(w, a, sign) == Term(sign, coef, d, e)
  {
    var q := a + |m|;
    var q1 := q + 1;
    assert q < |w| && w[q] == 'x' && ReadPower(w, q1, sign, coef) == Term(sign, coef, d, e) by {
      VariablePartReads(q, q1, d, sign, coef, w, x, e);
    }
    VariableReads(w, a, m, q1, coef, sign);
  }

  /** The printed term after its sign, `t`, read with the sign in force. */
  lemma UnsignedReads(w: string, a: nat, v: int, d: nat, sign: int, t: string, e: nat)
    requires v != 0 && t == MagnitudePart(v, d) + VariablePart(d)
    requires e == a + |t| && e <= |w| && w[a..e] == t && Boundary(w, e)
    ensures ReadUnsigned(w, a, sign) == Term(sign, Abs(v), d, e)
  {
    var m := MagnitudePart(v, d);
    var x := VariablePart(d);
    MagnitudeFacts(v, d);
    SliceSplit(w, a, m, x, e);
    if d == 0 {
      assert x == [] && m != [];
      ConstantReads(w, a, m, sign, e);
    } else {
      VariableTermReads(w, a, m, x, d, sign, Abs(v), e);
    }
  }

  /** After the sign a printed term starts with a digit or `x`. */
  lemma UnsignedStart(v: int, d: nat)
    requires v != 0
    ensures |MagnitudePart(v, d) + VariablePart(d)| > 0
    ensures IsDigit((MagnitudePart(v, d) + VariablePart(d))[0]) || (MagnitudePart(v, d) + VariablePart(d))[0] == 'x'
  {
  }

  /** The sign of a printed term, or its absence on a positive first term. */
  lemma SignReads(w: string, p: nat, v: int, first: bool, sign: int, a: nat, sg: int)
    requires v != 0 && p < |w|
    requires v < 0 ==> w[p] == '-'
    requires v > 0 && !first ==> w[p] == '+'
    requires v > 0 && first ==> w[p] != '+' && w[p] != '-'
    requires a == p + |SignPart(v, first)| && a <= |w|
    requires sg == if v < 0 then -1 else if first then sign else 1
    ensures ReadTerm(w, p, sign) == ReadUnsigned(w, a, sg)
  {
  }

  /** Reading a printed term gives back its coefficient and degree, and it
      ends where the printed term ends. */
  lemma TermReads(w: string, p: nat, v: int, d: nat, first: bool, sign: int, t: string, e: nat)
    requires v != 0 && t == CompactTerm(v, d, first)
    requires e == p + |t| && e <= |w| && w[p..e] == t && Boundary(w, e)
    ensures p < |w|
    ensures ReadTerm(w, p, sign) == Term(if v < 0 then -1 else if first then sign else 1, Abs(v), d, e)
  {
    var sp := SignPart(v, first);
    var rest := MagnitudePart(v, d) + VariablePart(d);
    TermShape(v, d, first);
    var a := p + |sp|;
    UnsignedStart(v, d);
    SignCut(w, p, a, e, sp, rest);
    var sg := if v < 0 then -1 else if first then sign else 1;
    SignReads(w, p, v, first, sign, a, sg);
    UnsignedReads(w, a, v, d, sg, rest, e);
  }

  /** A printed term is its sign, then the rest, and the sign is `-` for a
      negative coefficient, `+` for a later positive one, and empty for a
      positive first one. */
  lemma TermShape(v: int, d: nat, first: bool)
    ensures CompactTerm(v, d, first) == SignPart(v, first) + (MagnitudePart(v, d) + VariablePart(d))
    ensures v < 0 ==> SignPart(v, first) == "-"
    ensures v > 0 && !first ==> SignPart(v, first) == "+"
    ensures v > 0 && first ==> SignPart(v, first) == ""
  {
    AppendAssoc(SignPart(v, first), MagnitudePart(v, d), VariablePart(d));
  }

  /** A slice made of a sign text and a nonempty rest, cut where the rest
      begins. */
  lemma SignCut(w: string, p: nat, a: nat, e: nat, sp: string, rest: string)
    requires e <= |w| && a == p + |sp| && e == a + |rest| && w[p..e] == sp + rest && |rest| > 0
    ensures a < |w| && w[a..e] == rest && w[a] == rest[0]
    ensures sp == [] ==> w[p] == rest[0]
    ensures sp != [] ==> w[p] == sp[0]
  {
    assert w[a..e] == (sp + rest)[|sp|..];
    assert w[a] == w[a..e][0];
    assert w[p] == w[p..e][0];
  }
  lemma SuffixSplit(w: string, p: nat, t: string, rest: string)
    requires p <= |w| && w[p..] == t + rest
    ensures p + |t| <= |w| && w[p..p + |t|] == t && w[p + |t|..] == rest
  {
    assert w[p..p + |t|] == w[p..][..|t|];
    assert w[p + |t|..] == w[p..][|t|..];
  }

  /** The coefficients already read: those above degree `i` as printed, the
      rest still zero. */
  predicate ReadAbove(acc: seq<int>, c: seq<int>, i: int)
    requires |c| > MaxDegree
  {
    |acc| == MaxDegree + 1 && forall k :: 0 <= k <= MaxDegree ==> acc[k] == (if k > i then c[k] else 0)
  }

  /** The `0` printed for an all-zero polynomial reads as nothing at all. */
  lemma ZeroReads(w: string, p: nat, sign: int, acc: seq<int>)
    requires Parsable(w) && p <= |w| && w[p..] == "0" && |acc| > 0
    ensures ParseFrom(w, p, sign, acc) == acc
  {
    ConstantReads(w, p, "0", sign, p + 1);
    assert AddTerm(acc, 0, 0) == acc;
  }

  /** Where the printed term of degree `i` ends, and the text after it. */
  lemma TermSplit(w: string, p: nat, c: seq<int>, i: nat, first: bool) returns (e: nat)
    requires |c| > MaxDegree && i <= MaxDegree && c[i] != 0
    requires p <= |w| && w[p..] == CompactTerms(c, i, first)
    ensures e == p + |CompactTerm(c[i], i, first)| && e <= |w|
    ensures w[p..e] == CompactTerm(c[i], i, first) && Boundary(w, e)
    ensures w[e..] == CompactTerms(c, i - 1, false)
  {
    var t := CompactTerm(c[i], i, first);
    var rest := CompactTerms(c, i - 1, false);
    assert CompactTerms(c, i, first) == t + rest;
    SuffixSplit(w, p, t, rest);
    e := p + |t|;
    assert rest == [] || rest[0] == '+' || rest[0] == '-' by {
      CompactTermsParsable(c, i - 1, false);
    }
    SignNext(w, e, rest);
  }

  /** Text that is empty or starts with a sign begins at a term boundary. */
  lemma SignNext(w: string, e: nat, rest: string)
    requires e <= |w| && w[e..] == rest
    requires rest == [] || rest[0] == '+' || rest[0] == '-'
    ensures Boundary(w, e)
  {
    if e < |w| {
      assert w[e] == w[e..][0];
    }
  }

  /** One printed nonzero term, read from `p`: its coefficient goes into
      `acc` and reading goes on at the next term, which starts with a sign. */
  lemma TermStep(w: string, p: nat, c: seq<int>, i: nat, first: bool, sign: int, acc: seq<int>) returns (e: nat, sg: int)
    requires |c| > MaxDegree && i <= MaxDegree && c[i] != 0
    requires Parsable(w) && p <= |w| && w[p..] == CompactTerms(c, i, first)
    requires p == |w| || w[p] != '^'
    requires first ==> sign == 1
    requires |acc| == MaxDegree + 1
    ensures p < e <= |w| && w[e..] == CompactTerms(c, i - 1, false)
    ensures e == |w| || w[e] != '^'
    ensures ParseFrom(w, p, sign, acc) == ParseFrom(w, e, sg, acc[i := acc[i] + c[i]])
  {
    sg := if c[i] < 0 then -1 else if first then sign else 1;
    assert AddTerm(acc, i, sg * Abs(c[i])) == acc[i := acc[i] + c[i]] by {
      if c[i] < 0 {
        assert sg * Abs(c[i]) == c[i];
      } else {
        assert sg == 1;
      }
    }
    e := TermSplit(w, p, c, i, first);
    TermReads(w, p, c[i], i, first, sign, CompactTerm(c[i], i, first), e);
    ParseFromStep(w, p, sign, acc, Term(sg, Abs(c[i]), i, e));
  }

  /** Reading the printed terms of degree `i` down to 0 fills in exactly
      those coefficients. */
  lemma {:induction false} ParseTerms(w: string, p: nat, c: seq<int>, i: int, first: bool, sign: int, acc: seq<int>)
    requires |c| > MaxDegree && -1 <= i <= MaxDegree
    requires Parsable(w) && p <= |w| && w[p..] == CompactTerms(c, i, first)
    requires p == |w| || w[p] != '^'
    requires first ==> sign == 1
    requires ReadAbove(acc, c, i)
    ensures ParseFrom(w, p, sign, acc) == c[..MaxDegree + 1]
    decreases i + 1
  {
    if i < 0 {
      if first {
        ZeroReads(w, p, sign, acc);
      }
      assert acc == c[..MaxDegree + 1];
    } else if c[i] == 0 {
      ParseTerms(w, p, c, i - 1, first, sign, acc);
    } else {
      var e, sg := TermStep(w, p, c, i, first, sign, acc);
      assert acc[i] == 0;
      ParseTerms(w, e, c, i - 1, false, sg, acc[i := c[i]]);
    }
  }

  /** No `*` anywhere in the text. */
  predicate StarFree(s: string) {
    forall k :: 0 <= k < |s| ==> s[k] != '*'
  }

  lemma StarFreeAppend(a: string, b: string)
    requires StarFree(a) && StarFree(b)
    ensures StarFree(a + b)
  {
    assert forall k :: |a| <= k < |a + b| ==> (a + b)[k] == b[k - |a|];
  }

  lemma DigitsStarFree(s: string)
    requires AllDigits(s)
    ensures StarFree(s)
  {
  }

  /** A printed term is made of blanks, signs, digits, `x` and `^`. */
  lemma TermTextStarFree(v: int, d: nat, first: bool)
    ensures StarFree(TermText(v, d, first))
  {
    var sg := (if !first && v > 0 then " + " else "") + (if v < 0 then " - " else "");
    var mag := if Abs(v) != 1 || d == 0 then NatText(Abs(v)) else "";
    var pow := if d > 1 then "^" + NatText(d) else "";
    var vr := if d >= 1 then "x" + pow else "";
    assert StarFree(sg);
    DigitsStarFree(NatText(Abs(v)));
    DigitsStarFree(NatText(d));
    StarFreeAppend("^", NatText(d));
    StarFreeAppend("x", pow);
    StarFreeAppend(sg, mag);
    StarFreeAppend(sg + mag, vr);
    assert TermText(v, d, first) == sg + mag + vr;
  }

  lemma {:induction false} TermsStarFree(c: seq<int>, i: int, first: bool)
    requires |c| > MaxDegree && -1 <= i <= MaxDegree
    ensures StarFree(Terms(c, i, first))
    decreases i + 1
  {
    if i >= 0 {
      if c[i] == 0 {
        TermsStarFree(c, i - 1, first);
      } else {
        TermTextStarFree(c[i], i, first);
        TermsStarFree(c, i - 1, false);
        StarFreeAppend(TermText(c[i], i, first), Terms(c, i - 1, false));
      }
    }
  }

  /** The printed text has no `**`, so `replace_double_star` leaves it
      alone. */
  lemma PrintedStarsUnchanged(c: seq<int>)
    requires |c| > MaxDegree
    ensures ReplaceStars(PolyText(c)) == PolyText(c)
  {
    TermsStarFree(c, MaxDegree, true);
    NoPairUnchanged(PolyText(c));
  }

  /** Printing, then the per-line edits of the program (`**` to `^`, then
      removing the spaces), then reading back gives the 101 coefficients
      that were printed. */
  lemma RoundTrip(c: seq<int>)
    requires |c| > MaxDegree
    ensures Parsable(NoSpaces(PolyText(c)))
    ensures Parse(NoSpaces(PolyText(c))) == c[..MaxDegree + 1]
    ensures ReplaceStars(PolyText(c)) == PolyText(c)
    ensures Parse(NoSpaces(ReplaceStars(PolyText(c)))) == c[..MaxDegree + 1]
  {
    CompactTermsAre(c, MaxDegree, true);
    var w := CompactTerms(c, MaxDegree, true);
    CompactTermsParsable(c, MaxDegree, true);
    ParsableStart(w);
    assert w[0..] == w;
    ParseTerms(w, 0, c, MaxDegree, true, 1, Zeros(MaxDegree + 1));
    PrintedStarsUnchanged(c);
  }

  /** `Parse("0")` is the zero polynomial. */
  lemma ZeroParses()
    ensures Parsable("0") && Parse("0") == Zeros(MaxDegree + 1)
  {
    assert Parsable("0") by {
      assert IsDigit("0"[0]);
    }
    assert "0"[0..] == "0";
    ZeroReads("0", 0, 1, Zeros(MaxDegree + 1));
  }

  lemma {:induction false} AllZeroTerms(c: seq<int>, i: int)
    requires |c| > MaxDegree && -1 <= i <= MaxDegree
    requires forall k :: 0 <= k <= i ==> c[k] == 0
    ensures Terms(c, i, true) == "0"
    decreases i + 1
  {
    if i >= 0 {
      AllZeroTerms(c, i - 1);
    }
  }

  /** The printer writes `0` exactly when all 101 coefficients are zero. */
  lemma ZeroText(c: seq<int>)
    requires |c| > MaxDegree
    ensures PolyText(c) == "0" <==> forall k :: 0 <= k <= MaxDegree ==> c[k] == 0
  {
    if forall k :: 0 <= k <= MaxDegree ==> c[k] == 0 {
      AllZeroTerms(c, MaxDegree);
    }
    if PolyText(c) == "0" {
      RoundTrip(c);
      NoSpacesSound("0");
      ZeroParses();
      forall k | 0 <= k <= MaxDegree
        ensures c[k] == 0
      {
        assert c[k] == c[..MaxDegree + 1][k];
      }
    }
  }

  lemma {:induction false} TermsIgnoreHigh(c: seq<int>, c': seq<int>, i: int, first: bool)
    requires |c| > MaxDegree && |c'| > MaxDegree && -1 <= i <= MaxDegree
    requires forall k :: 0 <= k <= i ==> c[k] == c'[k]
    ensures Terms(c, i, first) == Terms(c', i, first)
    decreases i + 1
  {
    if i >= 0 {
      TermsIgnoreHigh(c, c', i - 1, first);
      TermsIgnoreHigh(c, c', i - 1, false);
    }
  }

  /** Only the coefficients of degree 0 to 100 are printed: two arrays
      that agree there print the same text. */
  lemma PrintIgnoresHigh(c: seq<int>, c': seq<int>)
    requires |c| > MaxDegree && |c'| > MaxDegree
    requires c[..MaxDegree + 1] == c'[..MaxDegree + 1]
    ensures PolyText(c) == PolyText(c')
  {
    forall k | 0 <= k <= MaxDegree
      ensures c[k] == c'[k]
    {
      assert c[k] == c[..MaxDegree + 1][k] && c'[k] == c'[..MaxDegree + 1][k];
    }
    TermsIgnoreHigh(c, c', MaxDegree, true);
  }

  /** A single term reads as its coefficient at its degree; a degree above
      100 is read and dropped. */
  lemma Monomial(v: int, d: nat)
    requires v != 0
    ensures Parsable(CompactTerm(v, d, true))
    ensures Parse(CompactTerm(v, d, true)) ==
              if d <= MaxDegree then Zeros(MaxDegree + 1)[d := v] else Zeros(MaxDegree + 1)
  {
    var w := CompactTerm(v, d, true);
    var z := Zeros(MaxDegree + 1);
    var sg := if v < 0 then -1 else 1;
    SignedAdd(v, d, sg);
    CompactTermParsable(v, d, true);
    MonomialReads(v, d, sg);
    OneTerm(w, Term(sg, Abs(v), d, |w|), z);
  }

  /** Adding the magnitude with its sign adds the coefficient. */
  lemma SignedAdd(v: int, d: nat, sg: int)
    requires sg == (if v < 0 then -1 else 1)
    ensures AddTerm(Zeros(MaxDegree + 1), d, sg * Abs(v)) ==
              if d <= MaxDegree then Zeros(MaxDegree + 1)[d := v] else Zeros(MaxDegree + 1)
  {
    if v < 0 {
      assert sg * Abs(v) == v;
    }
  }

  /** A lone compact term is read in one pass, up to its end. */
  lemma MonomialReads(v: int, d: nat, sg: int)
    requires v != 0 && sg == (if v < 0 then -1 else 1)
    ensures 0 < |CompactTerm(v, d, true)|
    ensures ReadTerm(CompactTerm(v, d, true), 0, 1) == Term(sg, Abs(v), d, |CompactTerm(v, d, true)|)
  {
    var w := CompactTerm(v, d, true);
    CompactTermParsable(v, d, true);
    assert w[0..|w|] == w;
    TermReads(w, 0, v, d, true, 1, w, |w|);
  }

  /** A text that is a single term parses as that term added in. */
  lemma OneTerm(w: string, t: Term, z: seq<int>)
    requires Parsable(w) && 0 < |w| && ReadTerm(w, 0, 1) == t && t.next == |w|
    ensures ParseFrom(w, 0, 1, z) == AddTerm(z, t.degree, t.sign * t.coef)
  {
    ParsableStart(w);
    ParseFromStep(w, 0, 1, z, t);
  }

  /** A term with no sign of its own keeps the sign of the term before it:
      `-x3` reads as -x - 3. */
  lemma SignCarries()
    ensures Parsable("-x3")
    ensures Parse("-x3") == Zeros(MaxDegree + 1)[1 := -1][0 := -3]
  {
    var w := "-x3";
    var z := Zeros(MaxDegree + 1);
    assert Parsable(w) by {
      assert IsDigit(w[2]);
    }
    assert DigitEnd(w, 1) == 1;
    assert ReadTerm(w, 0, 1) == Term(-1, 1, 1, 2);
    ParseFromStep(w, 0, 1, z, Term(-1, 1, 1, 2));
    assert DigitEnd(w, 2) == 3;
    assert w[2..3] == "3";
    assert ReadTerm(w, 2, -1) == Term(-1, 3, 0, 3);
    ParseFromStep(w, 2, -1, z[1 := -1], Term(-1, 3, 0, 3));
  }
}
