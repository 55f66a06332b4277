/** Token classification of the expression evaluator (main.c): operators,
    their precedence, and the numbers `strtod` reads in full. Tokens are
    strings, as in the source, because the lexer can produce text that is
    neither a number nor an operator (`"2-1"`, `"-3e"`). */
module Tokens {
  import opened Common

  /** `isOperator`: one of the five one-character operator tokens. */
  predicate IsOperator(t: string) {
    t == "+" || t == "-" || t == "*" || t == "/" || t == "^"
  }

  /** `precedence`: `+ -` bind weakest, `^` strongest, anything else is 0. */
  function Precedence(op: string): (p: nat)
    ensures p <= 3
    ensures p > 0 <==> IsOperator(op)
  {
    if op == "+" || op == "-" then 1
    else if op == "*" || op == "/" then 2
    else if op == "^" then 3
    else 0
  }

  datatype Sign = NoSign | Plus | Minus

  /** A decimal floating literal taken apart: optional sign, integer digits,
      optional point with fraction digits, optional exponent. */
  datatype Literal = Literal(sign: Sign, intDigits: string, point: bool, fracDigits: string,
                             exponent: Option<Exponent>)

  /** `e` or `E`, an optional sign and the exponent digits */
  datatype Exponent = Exponent(marker: char, sign: Sign, digits: string)

  /** The literals `strtod` reads: at least one mantissa digit, fraction digits
      only after a point, and at least one exponent digit after `e`/`E`. */
  predicate WellFormedLiteral(lit: Literal) {
    AllDigits(lit.intDigits) && AllDigits(lit.fracDigits) &&
    (|lit.intDigits| > 0 || |lit.fracDigits| > 0) &&
    (!lit.point ==> lit.fracDigits == []) &&
    (lit.exponent.Some? ==>
       var e := lit.exponent.value;
       (e.marker == 'e' || e.marker == 'E') && AllDigits(e.digits) && |e.digits| > 0)
  }

  function SignText(sg: Sign): string {
    match sg
    case NoSign => ""
    case Plus => "+"
    case Minus => "-"
  }

  /** The text of a literal. */
  function Spell(lit: Literal): string {
    SignText(lit.sign) + lit.intDigits + (if lit.point then "." else "") + lit.fracDigits +
    (match lit.exponent
     case None => ""
     case Some(e) => [e.marker] + SignText(e.sign) + e.digits)
  }

  function SignAt(t: string, i: nat): Sign
    requires i < |t|
  {
    if t[i] == '+' then Plus else if t[i] == '-' then Minus else NoSign
  }

  function MantissaText(lit: Literal): string {
    SignText(lit.sign) + lit.intDigits + (if lit.point then "." else "") + lit.fracDigits
  }

  function ExponentText(e: Exponent): string {
    [e.marker] + SignText(e.sign) + e.digits
  }

  /** Reads an optional sign, digits, an optional point and more digits from
      the start of `t`; returns them (without exponent) and where they end. */
  function ScanMantissa(t: string): (r: (Literal, nat))
    ensures r.1 <= |t| && MantissaText(r.0) == t[..r.1] && r.0.exponent == None
    ensures AllDigits(r.0.intDigits) && AllDigits(r.0.fracDigits) && (!r.0.point ==> r.0.fracDigits == [])
  {
    var a := if |t| > 0 && (t[0] == '+' || t[0] == '-') then 1 else 0;
    var b := DigitEnd(t, a);
    var point := b < |t| && t[b] == '.';
    var c := if point then b + 1 else b;
    var d := DigitEnd(t, c);
    var lit := Literal(if a == 1 then SignAt(t, 0) else NoSign, t[a..b], point, t[c..d], None);
    assert MantissaText(lit) == t[..d] by {
      assert SignText(lit.sign) == t[..a] by {
        if a == 1 {
          assert SignText(lit.sign) == [t[0]];
        }
      }
      assert (if point then "." else "") == t[b..c] by {
        if point {
          assert t[b..c] == [t[b]];
        }
      }
      assert t[..b] == t[..a] + t[a..b];
      assert t[..c] == t[..b] + t[b..c];
      assert t[..d] == t[..c] + t[c..d];
    }
    (lit, d)
  }

  /** Reads `e`/`E`, an optional sign and digits starting at `d`, all the way
      to the end of `t`; `None` when `strtod` would not take all of it. */
  function ScanExponent(t: string, d: nat): (r: Option<Exponent>)
    requires d < |t|
    ensures r.Some? ==> ExponentText(r.value) == t[d..]
    ensures r.Some? ==> (r.value.marker == 'e' || r.value.marker == 'E') &&
                        AllDigits(r.value.digits) && |r.value.digits| > 0
  {
    var f := if d + 1 < |t| && (t[d + 1] == '+' || t[d + 1] == '-') then d + 2 else d + 1;
    var g := DigitEnd(t, f);
    if (t[d] != 'e' && t[d] != 'E') || g == f || g != |t| then None
    else
      var e := Exponent(t[d], if f == d + 2 then SignAt(t, d + 1) else NoSign, t[f..]);
      assert ExponentText(e) == t[d..] by {
        assert [t[d]] + SignText(e.sign) == t[d..f] by {
          if f == d + 2 {
            assert SignText(e.sign) == [t[d + 1]];
          } else {
            assert SignText(e.sign) == [];
          }
        }
        assert t[d..] == t[d..f] + t[f..];
      }
      Some(e)
  }

  /** Reads `t` as a decimal literal from its first to its last character,
      the way `strtod` does; `None` when `strtod` would stop early. */
  function ScanLiteral(t: string): (r: Option<Literal>)
    ensures r.Some? ==> WellFormedLiteral(r.value)
  {
    var (mantissa, d) := ScanMantissa(t);
    if |mantissa.intDigits| == 0 && |mantissa.fracDigits| == 0 then None
    else if d == |t| then Some(mantissa)
    else match ScanExponent(t, d)
      case None => None
      case Some(e) => Some(mantissa.(exponent := Some(e)))
  }

  /** Where a left-to-right reading of a literal stands: before anything,
      after a sign, in the integer digits, after a point with no digit yet,
      in the fraction, after `e`/`E`, after the exponent sign, in the exponent
      digits. */
  datatype NumState = Start | Signed | IntPart | BarePoint | FracPart | ExpMark | ExpSigned | ExpPart

  /** One character of the literal grammar; `None` where `strtod` stops. */
  function Next(st: NumState, c: char): Option<NumState> {
    match st
    case Start | Signed =>
      if IsDigit(c) then Some(IntPart)
      else if c == '.' then Some(BarePoint)
      else if st == Start && (c == '+' || c == '-') then Some(Signed)
      else None
    case IntPart =>
      if IsDigit(c) then Some(IntPart)
      else if c == '.' then Some(FracPart)
      else if c == 'e' || c == 'E' then Some(ExpMark)
      else None
    case BarePoint => if IsDigit(c) then Some(FracPart) else None
    case FracPart =>
      if IsDigit(c) then Some(FracPart)
      else if c == 'e' || c == 'E' then Some(ExpMark)
      else None
    case ExpMark =>
      if IsDigit(c) then Some(ExpPart)
      else if c == '+' || c == '-' then Some(ExpSigned)
      else None
    case ExpSigned | ExpPart => if IsDigit(c) then Some(ExpPart) else None
  }

  /** The states in which a complete literal has been read. */
  predicate Accepting(st: NumState) {
    st == IntPart || st == FracPart || st == ExpPart
  }

  /** `t[i..]` takes the reading from `st` to an accepting state. */
  predicate AcceptsFrom(t: string, i: nat, st: NumState)
    requires i <= |t|
    decreases |t| - i
  {
    if i == |t| then Accepting(st)
    else match Next(st, t[i])
      case None => false
      case Some(st') => AcceptsFrom(t, i + 1, st')
  }

  /** `isNumber`: `strtod` consumes the whole token. (On strings made of
      digits, `.`, `e`, `E`, signs and operators this is exactly `strtod`'s
      decimal grammar; its `inf`, `nan` and hexadecimal forms need letters the
      lexer never puts in a token.) */
  predicate IsNumber(t: string) {
    AcceptsFrom(t, 0, Start)
  }

  function SignedReal(sg: Sign, m: real): real {
    if sg == Minus then -m else m
  }

  /** The exact value of a well-formed literal. */
  function LiteralValue(lit: Literal): real
    requires WellFormedLiteral(lit)
  {
    var m := DigitsValue(lit.intDigits) as real +
             DigitsValue(lit.fracDigits) as real / Pow10(|lit.fracDigits|) as real;
    var scaled :=
      match lit.exponent
      case None => m
      case Some(e) =>
        if e.sign == Minus then m / Pow10(DigitsValue(e.digits)) as real
        else m * Pow10(DigitsValue(e.digits)) as real;
    SignedReal(lit.sign, scaled)
  }

  /** `strtod(t, NULL)` on a number token, as an exact real. */
  function NumberValue(t: string): real
    requires IsNumber(t)
  {
    NumberScans(t);
    LiteralValue(ScanLiteral(t).value)
  }

  lemma SpellParts(lit: Literal)
    ensures Spell(lit) == MantissaText(lit) + (match lit.exponent
                                                case None => ""
                                                case Some(e) => ExponentText(e))
  {
  }

  /** What the scanner accepts is spelled exactly by the parts it returns. */
  lemma ScanLiteralSpells(t: string)
    requires ScanLiteral(t).Some?
    ensures Spell(ScanLiteral(t).value) == t
  {
    var (mantissa, d) := ScanMantissa(t);
    var lit := ScanLiteral(t).value;
    SpellParts(lit);
    if d == |t| {
      assert lit == mantissa && t[..d] == t;
    } else {
      var e := ScanExponent(t, d).value;
      assert lit == mantissa.(exponent := Some(e));
      assert MantissaText(lit) == t[..d] && ExponentText(e) == t[d..];
      assert t == t[..d] + t[d..];
    }
  }

  /** Five texts written one after another are the slices between their
      ends `a`, `b`, `c` and `d`. */
  lemma Layout(t: string, x: string, y: string, z: string, w: string, v: string, a: nat, b: nat, c: nat, d: nat)
    requires t == x + y + z + w + v
    requires a == |x| && b == a + |y| && c == b + |z| && d == c + |w|
    ensures d <= |t| && t[..a] == x && t[a..b] == y && t[b..c] == z && t[c..d] == w && t[d..] == v
  {
  }

  /** A sign, digits, an optional point and more digits, followed by nothing
      or an exponent marker, are cut where they were joined. */
  lemma CutsAt(t: string, sg: string, ds: string, pt: string, fs: string, tail: string, a: nat, b: nat, c: nat, d: nat)
    requires t == sg + ds + pt + fs + tail
    requires a == |sg| && b == a + |ds| && c == b + |pt| && d == c + |fs|
    requires sg == "" || sg == "+" || sg == "-"
    requires pt == "" || pt == "."
    requires AllDigits(ds) && AllDigits(fs) && (|ds| > 0 || |fs| > 0) && (pt == "" ==> fs == "")
    requires tail == [] || tail[0] == 'e' || tail[0] == 'E'
    ensures MantissaCuts(t, a, b, c, d)
    ensures t[..a] == sg && t[a..b] == ds && t[c..d] == fs
  {
    Layout(t, sg, ds, pt, fs, tail, a, b, c, d);
    assert a == (if |t| > 0 && (t[0] == '+' || t[0] == '-') then 1 else 0) by {
      if a == 0 {
        assert t[0] == (if |ds| > 0 then ds[0] else '.');
      }
    }
    assert b == |t| || !IsDigit(t[b]) by {
      if b < |t| {
        if pt == "." { assert t[b] == '.'; }
        else { assert t[b] == tail[0]; }
      }
    }
    DigitEndIs(t, a, b);
    assert (b < |t| && t[b] == '.') == (pt == ".") by {
      if pt == "" && b < |t| { assert t[b] == tail[0]; }
    }
    assert d == |t| || !IsDigit(t[d]) by {
      if d < |t| { assert t[d] == tail[0]; }
    }
    DigitEndIs(t, c, d);
  }

  /** The mantissa of a well-formed literal is read back when what follows it
      is nothing or an exponent marker. */
  lemma MantissaScans(lit: Literal, tail: string)
    requires WellFormedLiteral(lit) && lit.exponent == None
    requires tail == [] || tail[0] == 'e' || tail[0] == 'E'
    ensures ScanMantissa(MantissaText(lit) + tail) == (lit, |MantissaText(lit)|)
  {
    var t := MantissaText(lit) + tail;
    var sg := SignText(lit.sign);
    var pt: string := if lit.point then "." else "";
    var a, b := |sg|, |sg| + |lit.intDigits|;
    var c, d := b + |pt|, b + |pt| + |lit.fracDigits|;
    CutsAt(t, sg, lit.intDigits, pt, lit.fracDigits, tail, a, b, c, d);
    SignBack(t, lit.sign);
    ScanMantissaAt(t, a, b, c, d);
    SameLiteral(ScanMantissa(t).0, lit);
  }

  /** What `ScanMantissa` returns, field by field, given where the parts of
      the text end. */
  lemma ScanMantissaAt(t: string, a: nat, b: nat, c: nat, d: nat)
    requires MantissaCuts(t, a, b, c, d)
    ensures ScanMantissa(t).1 == d
    ensures ScanMantissa(t).0.sign == (if a == 1 then SignAt(t, 0) else NoSign)
    ensures ScanMantissa(t).0.intDigits == t[a..b] && ScanMantissa(t).0.point == (c > b)
    ensures ScanMantissa(t).0.fracDigits == t[c..d] && ScanMantissa(t).0.exponent == None
  {
  }

  /** A sign written at the start of a text is read back. */
  lemma SignBack(t: string, sg: Sign)
    requires |SignText(sg)| <= |t| && t[..|SignText(sg)|] == SignText(sg)
    ensures (if |SignText(sg)| == 1 then SignAt(t, 0) else NoSign) == sg
  {
    if |SignText(sg)| == 1 {
      assert t[0] == t[..1][0];
    }
  }

  /** Literals agreeing on every field are equal. */
  lemma SameLiteral(x: Literal, y: Literal)
    requires x.sign == y.sign && x.intDigits == y.intDigits && x.point == y.point
    requires x.fracDigits == y.fracDigits && x.exponent == y.exponent
    ensures x == y
  {
  }

  /** A well-formed exponent written at the end of a text is read back. */
  lemma ExponentScans(e: Exponent, head: string)
    requires (e.marker == 'e' || e.marker == 'E') && AllDigits(e.digits) && |e.digits| > 0
    ensures ScanExponent(head + ExponentText(e), |head|) == Some(e)
  {
    var t := head + ExponentText(e);
    var d := |head|;
    var f := d + 1 + |SignText(e.sign)|;
    assert t[d] == e.marker;
    assert t[f..] == e.digits;
    assert f == (if d + 1 < |t| && (t[d + 1] == '+' || t[d + 1] == '-') then d + 2 else d + 1) by {
      if e.sign == NoSign { assert t[d + 1] == e.digits[0]; }
    }
    DigitEndIs(t, f, |t|);
    assert f == d + 2 ==> SignAt(t, d + 1) == e.sign;
  }

  /** Every well-formed literal, written out, is read back as itself. */
  lemma SpellScans(lit: Literal)
    requires WellFormedLiteral(lit)
    ensures ScanLiteral(Spell(lit)) == Some(lit)
  {
    var m := lit.(exponent := None);
    SpellParts(lit);
    match lit.exponent
    case None =>
      MantissaScans(m, "");
      assert Spell(lit) == MantissaText(m) + "";
    case Some(e) =>
      MantissaScans(m, ExponentText(e));
      ExponentScans(e, MantissaText(m));
  }

  lemma {:induction false} ExpPartRun(t: string, i: nat)
    requires i <= |t|
    ensures AcceptsFrom(t, i, ExpPart) <==> DigitEnd(t, i) == |t|
    decreases |t| - i
  {
    if i < |t| && IsDigit(t[i]) {
      ExpPartRun(t, i + 1);
    }
  }

  /** At least one digit at `f`, and only digits after it. */
  lemma DigitsToEnd(t: string, f: nat)
    requires f <= |t|
    ensures (f < |t| && IsDigit(t[f]) && AcceptsFrom(t, f + 1, ExpPart)) <==>
            (DigitEnd(t, f) != f && DigitEnd(t, f) == |t|)
  {
    if f < |t| && IsDigit(t[f]) {
      ExpPartRun(t, f + 1);
      assert DigitEnd(t, f) == DigitEnd(t, f + 1);
    }
  }

  /** After `e`/`E` the rest must be an optional sign and at least one digit,
      to the end: what `ScanExponent` checks. */
  lemma ExpMarkRun(t: string, d: nat)
    requires d < |t| && (t[d] == 'e' || t[d] == 'E')
    ensures AcceptsFrom(t, d + 1, ExpMark) <==> ScanExponent(t, d).Some?
  {
    var f := if d + 1 < |t| && (t[d + 1] == '+' || t[d + 1] == '-') then d + 2 else d + 1;
    assert AcceptsFrom(t, d + 1, ExpMark) <==> f < |t| && IsDigit(t[f]) && AcceptsFrom(t, f + 1, ExpPart) by {
      if f == d + 2 {
        assert AcceptsFrom(t, d + 1, ExpMark) == AcceptsFrom(t, f, ExpSigned);
      }
    }
    DigitsToEnd(t, f);
  }

  /** The fraction digits, then either the end or an exponent. */
  lemma {:induction false} FracPartRun(t: string, i: nat)
    requires i <= |t|
    ensures var d := DigitEnd(t, i);
            AcceptsFrom(t, i, FracPart) <==>
              d == |t| || ((t[d] == 'e' || t[d] == 'E') && AcceptsFrom(t, d + 1, ExpMark))
    decreases |t| - i
  {
    if i < |t| && IsDigit(t[i]) {
      FracPartRun(t, i + 1);
    }
  }

  /** The integer digits, then the end, a point and a fraction, or an
      exponent. */
  lemma {:induction false} IntPartRun(t: string, i: nat)
    requires i <= |t|
    ensures var b := DigitEnd(t, i);
            AcceptsFrom(t, i, IntPart) <==>
              b == |t| || (t[b] == '.' && AcceptsFrom(t, b + 1, FracPart)) ||
              ((t[b] == 'e' || t[b] == 'E') && AcceptsFrom(t, b + 1, ExpMark))
    decreases |t| - i
  {
    if i < |t| && IsDigit(t[i]) {
      IntPartRun(t, i + 1);
    }
  }

  /** What may follow the mantissa, on both sides. */
  lemma TailScans(t: string, d: nat)
    requires d <= |t|
    ensures AcceptsTail(t, d) <==> (d == |t| || ScanExponent(t, d).Some?)
  {
    if d < |t| && (t[d] == 'e' || t[d] == 'E') {
      ExpMarkRun(t, d);
    }
  }

  /** Where the sign, the integer digits, the point and the fraction digits
      of `t` end, as `ScanMantissa` finds them. */
  predicate MantissaCuts(t: string, a: nat, b: nat, c: nat, d: nat) {
    a == (if |t| > 0 && (t[0] == '+' || t[0] == '-') then 1 else 0) &&
    a <= |t| && b == DigitEnd(t, a) &&
    c == (if b < |t| && t[b] == '.' then b + 1 else b) && c <= |t| && d == DigitEnd(t, c)
  }

  lemma CutsOf(t: string) returns (a: nat, b: nat, c: nat, d: nat)
    ensures MantissaCuts(t, a, b, c, d)
  {
    a := if |t| > 0 && (t[0] == '+' || t[0] == '-') then 1 else 0;
    b := DigitEnd(t, a);
    c := if b < |t| && t[b] == '.' then b + 1 else b;
    d := DigitEnd(t, c);
  }

  /** The end of the input, or an exponent, after the mantissa. */
  predicate AcceptsTail(t: string, d: nat)
    requires d <= |t|
  {
    d == |t| || ((t[d] == 'e' || t[d] == 'E') && AcceptsFrom(t, d + 1, ExpMark))
  }

  /** Past the sign, if any. */
  lemma AcceptsAfterSign(t: string, a: nat, b: nat, c: nat, d: nat)
    requires MantissaCuts(t, a, b, c, d)
    ensures IsNumber(t) == AcceptsFrom(t, a, if a == 1 then Signed else Start)
  {
    if a == 1 {
      assert Next(Start, t[0]) == Some(Signed);
    }
  }

  lemma AcceptsWithDigits(t: string, a: nat, b: nat, c: nat, d: nat)
    requires MantissaCuts(t, a, b, c, d) && b > a
    ensures IsNumber(t) <==> AcceptsTail(t, d)
  {
    AcceptsAfterSign(t, a, b, c, d);
    assert IsDigit(t[a]);
    assert Next(if a == 1 then Signed else Start, t[a]) == Some(IntPart);
    IntPartRun(t, a + 1);
    assert DigitEnd(t, a + 1) == b;
    if c > b {
      FracPartRun(t, c);
    } else if b < |t| {
      assert d == b;
    }
  }

  lemma AcceptsBarePoint(t: string, a: nat, b: nat, c: nat, d: nat)
    requires MantissaCuts(t, a, b, c, d) && b == a
    ensures IsNumber(t) <==> d > c && AcceptsTail(t, d)
  {
    AcceptsAfterSign(t, a, b, c, d);
    if c > b {
      assert Next(if a == 1 then Signed else Start, t[a]) == Some(BarePoint);
      if c < |t| && IsDigit(t[c]) {
        assert Next(BarePoint, t[c]) == Some(FracPart);
        FracPartRun(t, c + 1);
        assert DigitEnd(t, c + 1) == d;
      }
    } else if a < |t| {
      assert Next(if a == 1 then Signed else Start, t[a]) == None;
    }
  }

  lemma ScanLiteralCuts(t: string, a: nat, b: nat, c: nat, d: nat)
    requires MantissaCuts(t, a, b, c, d)
    ensures ScanLiteral(t).Some? <==> !(b == a && d == c) && (d == |t| || ScanExponent(t, d).Some?)
  {
    var (m, d') := ScanMantissa(t);
    assert d' == d;
    assert |m.intDigits| == b - a && |m.fracDigits| == d - c;
  }

  /** The character-by-character grammar and the scanner that takes a
      literal apart accept the same tokens. */
  lemma NumberScans(t: string)
    ensures IsNumber(t) <==> ScanLiteral(t).Some?
  {
    var a, b, c, d := CutsOf(t);
    var tail := d == |t| || ScanExponent(t, d).Some?;
    assert ScanLiteral(t).Some? <==> !(b == a && d == c) && tail by {
      ScanLiteralCuts(t, a, b, c, d);
    }
    assert AcceptsTail(t, d) <==> tail by {
      TailScans(t, d);
    }
    if b > a {
      assert IsNumber(t) <==> AcceptsTail(t, d) by {
        AcceptsWithDigits(t, a, b, c, d);
      }
    } else {
      assert IsNumber(t) <==> d > c && AcceptsTail(t, d) by {
        AcceptsBarePoint(t, a, b, c, d);
      }
    }
  }

  /** A one-digit token is a number whose value is that digit. */
  lemma DigitNumber(t: string)
    requires |t| == 1 && IsDigit(t[0])
    ensures IsNumber(t) && NumberValue(t) == DigitValue(t[0]) as real
  {
    assert AcceptsFrom(t, 0, Start) == AcceptsFrom(t, 1, IntPart);
    var lit := Literal(NoSign, t, false, "", None);
    assert DigitEnd(t, 1) == 1 && DigitEnd(t, 0) == 1;
    assert t[0..1] == t && t[1..1] == "";
    assert ScanMantissa(t) == (lit, 1);
    assert ScanLiteral(t) == Some(lit);
    assert t[..0] == "";
    assert DigitsValue(t) == DigitValue(t[0]);
  }

  /** Parentheses and operators are not numbers. */
  lemma NotNumbers(t: string)
    requires t == "(" || t == ")" || IsOperator(t)
    ensures !IsNumber(t)
  {
    assert |t| == 1 && !IsDigit(t[0]) && t[0] != '.';
    if t[0] == '+' || t[0] == '-' {
      assert AcceptsFrom(t, 0, Start) == AcceptsFrom(t, 1, Signed);
    }
  }
}
