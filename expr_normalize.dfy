/** The first two stages of the expression evaluator (main.c): the check that
    rejects a line outright, and the one-pass rewrite of the raw text. */
module Normalizer {
  import opened Common

  predicate IsBracket(c: char) { c == '{' || c == '}' || c == '[' || c == ']' }

  /** The characters `strspn` skips in the blank-line test. */
  predicate IsLineBlank(c: char) { c == ' ' || c == '\t' || c == '\r' || c == '\n' }

  /** The scan for a bracket, from position `i` on. */
  function HasBracketFrom(line: string, i: nat): (r: bool)
    requires i <= |line|
    ensures r <==> exists k :: i <= k < |line| && IsBracket(line[k])
    decreases |line| - i
  {
    if i == |line| then false
    else IsBracket(line[i]) || HasBracketFrom(line, i + 1)
  }

  /** `strspn(line, " \t\r\n")` */
  function BlankSpan(line: string): (n: nat)
    ensures n <= |line|
    ensures forall k :: 0 <= k < n ==> IsLineBlank(line[k])
    ensures n == |line| || !IsLineBlank(line[n])
  {
    if |line| == 0 || !IsLineBlank(line[0]) then 0 else 1 + BlankSpan(line[1..])
  }

  /** `isInvalidLine`: a bracket anywhere, an empty line, or a line of blanks. */
  function IsInvalidLine(line: string): (r: bool)
    ensures r <==> (exists k :: 0 <= k < |line| && IsBracket(line[k]))
                   || |line| == 0
                   || (forall k :: 0 <= k < |line| ==> IsLineBlank(line[k]))
  {
    HasBracketFrom(line, 0) || |line| == 0 || BlankSpan(line) == |line|
  }

  /** The UTF-8 encodings of the en dash (E2 80 93) and em dash (E2 80 94). */
  predicate DashAt(line: string, i: nat) {
    i + 2 < |line| && line[i] == '\U{E2}' && line[i + 1] == '\U{80}' &&
    (line[i + 2] == '\U{93}' || line[i + 2] == '\U{94}')
  }

  predicate PowerAt(line: string, i: nat) {
    i + 1 < |line| && line[i] == '*' && line[i + 1] == '*'
  }

  /** An `e` with no alphanumeric character on either side (the end of the
      string counts as a non-alphanumeric neighbour). */
  predicate StandaloneEAt(line: string, i: nat) {
    i < |line| && line[i] == 'e' &&
    (i == 0 || !IsAlnum(line[i - 1])) && (i + 1 == |line| || !IsAlnum(line[i + 1]))
  }

  predicate NegatedGroupAt(line: string, i: nat) {
    i + 1 < |line| && line[i] == '-' && line[i + 1] == '('
  }

  const EulerText: string := "2.7182818"

  /** The rewrite of `line[i..]`, one rule per step, the first rule that
      applies winning; a standalone `e` looks at the original neighbours. */
  function NormalizeFrom(line: string, i: nat): string
    requires i <= |line|
    decreases |line| - i
  {
    if i == |line| then ""
    else if DashAt(line, i) then "-" + NormalizeFrom(line, i + 3)
    else if PowerAt(line, i) then "^" + NormalizeFrom(line, i + 2)
    else if StandaloneEAt(line, i) then EulerText + NormalizeFrom(line, i + 1)
    else if line[i] == 'f' then NormalizeFrom(line, i + 1)
    else if NegatedGroupAt(line, i) then "-1*(" + NormalizeFrom(line, i + 2)
    else [line[i]] + NormalizeFrom(line, i + 1)
  }

  function Normalize(line: string): string {
    NormalizeFrom(line, 0)
  }

  /** `preprocess_line`: fills a scratch buffer left to right and hands it
      back as the new line. */
  method PreprocessLine(line: string) returns (result: string)
    ensures result == Normalize(line)
  {
    var temp: string := "";
    var i := 0;
    ghost var goal := Normalize(line);
    assert temp + NormalizeFrom(line, i) == goal;
    while i < |line|
      invariant i <= |line|
      invariant temp + NormalizeFrom(line, i) == goal
      decreases |line| - i
    {
      ghost var rest := NormalizeFrom(line, i);
      var piece: string;
      var step: nat;
      if DashAt(line, i) {
        piece, step := "-", 3;
      } else if PowerAt(line, i) {
        piece, step := "^", 2;
      } else if StandaloneEAt(line, i) {
        piece, step := EulerText, 1;
      } else if line[i] == 'f' {
        piece, step := "", 1;
      } else if NegatedGroupAt(line, i) {
        piece, step := "-1*(", 2;
      } else {
        piece, step := [line[i]], 1;
      }
      assert piece == RuleText(line, i) && step == RuleWidth(line, i);
      assert rest == piece + NormalizeFrom(line, i + step) by { Unfold(line, i); }
      assert temp + rest == (temp + piece) + NormalizeFrom(line, i + step) by {
        AppendAssoc(temp, piece, NormalizeFrom(line, i + step));
      }
      temp := temp + piece;
      i := i + step;
    }
    result := temp;
  }

  /** A character no rule looks at. */
  predicate Plain(c: char) {
    c != '\U{E2}' && c != '*' && c != 'e' && c != 'f' && c != '-'
  }

  lemma {:induction false} PlainFromUnchanged(line: string, i: nat)
    requires i <= |line|
    requires forall k :: 0 <= k < |line| ==> Plain(line[k])
    ensures NormalizeFrom(line, i) == line[i..]
    decreases |line| - i
  {
    if i < |line| {
      PlainFromUnchanged(line, i + 1);
    }
  }

  /** Text that none of the rules can match is copied unchanged. */
  lemma PlainUnchanged(line: string)
    requires forall k :: 0 <= k < |line| ==> Plain(line[k])
    ensures Normalize(line) == line
  {
    PlainFromUnchanged(line, 0);
  }

  lemma {:induction false} NoFFrom(line: string, i: nat)
    requires i <= |line|
    ensures 'f' !in NormalizeFrom(line, i)
    decreases |line| - i
  {
    if i < |line| {
      if DashAt(line, i) { NoFFrom(line, i + 3); }
      else if PowerAt(line, i) || NegatedGroupAt(line, i) { NoFFrom(line, i + 2); }
      else { NoFFrom(line, i + 1); }
    }
  }

  /** Every `f` is dropped and no rule writes one. */
  lemma NormalizedHasNoF(line: string)
    ensures 'f' !in Normalize(line)
  {
    NoFFrom(line, 0);
  }

  lemma {:induction false} GrowthFrom(line: string, i: nat)
    requires i <= |line|
    ensures |NormalizeFrom(line, i)| <= 9 * (|line| - i)
    decreases |line| - i
  {
    if i < |line| {
      if DashAt(line, i) { GrowthFrom(line, i + 3); }
      else if PowerAt(line, i) || NegatedGroupAt(line, i) { GrowthFrom(line, i + 2); }
      else { GrowthFrom(line, i + 1); }
    }
  }

  /** The only rule that lengthens the text is the `e` expansion, nine
      characters for one, so the result is at most nine times as long. */
  lemma NormalizedLength(line: string)
    ensures |Normalize(line)| <= 9 * |line|
  {
    GrowthFrom(line, 0);
  }

  /** No rule applied before `j` looks at `line[j]` or beyond: neither
      two-character pattern nor the en dash straddles `j`, and a standalone-`e`
      test just before `j` is not decided by `line[j]`. */
  predicate Seam(line: string, j: nat) {
    0 < j <= |line|
    && !DashAt(line, j - 1) && (j < 2 || !DashAt(line, j - 2))
    && !PowerAt(line, j - 1) && !NegatedGroupAt(line, j - 1)
    && !(j < |line| && line[j - 1] == 'e' && (j == 1 || !IsAlnum(line[j - 2])) && IsAlnum(line[j]))
  }

  /** What the rule that applies at `i` writes; the first rule that applies
      wins. */
  function RuleText(line: string, i: nat): string
    requires i < |line|
  {
    if DashAt(line, i) then "-"
    else if PowerAt(line, i) then "^"
    else if StandaloneEAt(line, i) then EulerText
    else if line[i] == 'f' then ""
    else if NegatedGroupAt(line, i) then "-1*("
    else [line[i]]
  }

  /** How many characters the rule that applies at `i` consumes. */
  function RuleWidth(line: string, i: nat): (w: nat)
    requires i < |line|
    ensures 1 <= w <= 3 && i + w <= |line|
  {
    if DashAt(line, i) then 3
    else if PowerAt(line, i) then 2
    else if StandaloneEAt(line, i) || line[i] == 'f' then 1
    else if NegatedGroupAt(line, i) then 2
    else 1
  }

  lemma Unfold(line: string, i: nat)
    requires i < |line|
    ensures NormalizeFrom(line, i) == RuleText(line, i) + NormalizeFrom(line, i + RuleWidth(line, i))
  {
    if DashAt(line, i) {
    } else if PowerAt(line, i) {
    } else if StandaloneEAt(line, i) {
    } else if line[i] == 'f' {
      assert RuleText(line, i) == "";
    } else if NegatedGroupAt(line, i) {
    } else {
    }
  }

  /** Before a seam, every rule decides the same on the cut text as on the
      whole line, and none reaches past the seam. */
  lemma SameRulesBefore(line: string, i: nat, j: nat)
    requires i < j && Seam(line, j)
    ensures RuleText(line[..j], i) == RuleText(line, i)
    ensures RuleWidth(line[..j], i) == RuleWidth(line, i)
    ensures i + RuleWidth(line, i) <= j
  {
    var pre := line[..j];
    assert pre[i] == line[i];
    assert DashAt(pre, i) == DashAt(line, i);
    assert PowerAt(pre, i) == PowerAt(line, i);
    assert StandaloneEAt(pre, i) == StandaloneEAt(line, i);
    assert NegatedGroupAt(pre, i) == NegatedGroupAt(line, i);
  }

  /** One step of the rewrite before a seam: if the cut text and the whole
      line agree after the rule at `i`, they agree from `i`. */
  lemma CutStep(line: string, i: nat, j: nat, a: string, b: string)
    requires i < j <= |line|
    requires i + RuleWidth(line, i) <= j
    requires RuleText(line[..j], i) == RuleText(line, i) && RuleWidth(line[..j], i) == RuleWidth(line, i)
    requires a == NormalizeFrom(line[..j], i + RuleWidth(line, i))
    requires b == NormalizeFrom(line, j)
    requires NormalizeFrom(line, i + RuleWidth(line, i)) == a + b
    ensures NormalizeFrom(line, i) == NormalizeFrom(line[..j], i) + b
  {
    var t := RuleText(line, i);
    assert NormalizeFrom(line[..j], i) == t + a by { Unfold(line[..j], i); }
    assert NormalizeFrom(line, i) == t + (a + b) by { Unfold(line, i); }
    AppendAssoc(t, a, b);
  }

  /** Rewriting stops cleanly at a seam: the text before it is rewritten as if
      it ended there. */
  lemma {:induction false} CutFrom(line: string, i: nat, j: nat)
    requires i <= j && Seam(line, j)
    ensures NormalizeFrom(line, i) == NormalizeFrom(line[..j], i) + NormalizeFrom(line, j)
    decreases j - i
  {
    if i < j {
      SameRulesBefore(line, i, j);
      var w := RuleWidth(line, i);
      CutFrom(line, i + w, j);
      CutStep(line, i, j, NormalizeFrom(line[..j], i + w), NormalizeFrom(line, j));
    }
  }

  /** The rule at a seam (or at the start) applies whatever precedes it: the
      text before is rewritten on its own, and the rewrite carries on after the
      characters the rule consumed. */
  lemma RuleInContext(line: string, j: nat)
    requires j < |line| && (j == 0 || Seam(line, j))
    ensures Normalize(line) == Normalize(line[..j]) + RuleText(line, j)
                               + NormalizeFrom(line, j + RuleWidth(line, j))
  {
    var t := RuleText(line, j);
    var rest := NormalizeFrom(line, j + RuleWidth(line, j));
    assert NormalizeFrom(line, j) == t + rest by { Unfold(line, j); }
    if j == 0 {
      assert Normalize(line[..0]) == "";
    } else {
      CutFrom(line, 0, j);
      AppendAssoc(Normalize(line[..j]), t, rest);
    }
  }

  /** `**` becomes `^` wherever it stands, unless a third `*` comes just
      before it. */
  lemma PowerInContext(line: string, j: nat)
    requires PowerAt(line, j)
    requires j == 0 || line[j - 1] != '*'
    ensures Normalize(line) == Normalize(line[..j]) + "^" + NormalizeFrom(line, j + 2)
  {
    RuleInContext(line, j);
  }

  /** `-(` becomes `-1*(` wherever it stands. */
  lemma NegatedGroupInContext(line: string, j: nat)
    requires NegatedGroupAt(line, j)
    ensures Normalize(line) == Normalize(line[..j]) + "-1*(" + NormalizeFrom(line, j + 2)
  {
    RuleInContext(line, j);
  }

  /** The en and em dashes become `-` wherever they stand. */
  lemma DashInContext(line: string, j: nat)
    requires DashAt(line, j)
    ensures Normalize(line) == Normalize(line[..j]) + "-" + NormalizeFrom(line, j + 3)
  {
    RuleInContext(line, j);
  }

  /** An `e` with no letter or digit on either side becomes Euler's number
      wherever it stands. */
  lemma EulerInContext(line: string, j: nat)
    requires StandaloneEAt(line, j)
    ensures Normalize(line) == Normalize(line[..j]) + EulerText + NormalizeFrom(line, j + 1)
  {
    RuleInContext(line, j);
  }

  /** An `f` is dropped wherever it stands, unless it is what keeps an `e`
      just before it from standing alone. */
  lemma SuffixInContext(line: string, j: nat)
    requires j < |line| && line[j] == 'f'
    requires j == 0 || line[j - 1] != 'e' || (j >= 2 && IsAlnum(line[j - 2]))
    ensures Normalize(line) == Normalize(line[..j]) + NormalizeFrom(line, j + 1)
  {
    RuleInContext(line, j);
  }

  /** A character at which no rule applies is copied wherever it stands, as
      long as no rule before it looks at it. */
  lemma CopyInContext(line: string, j: nat)
    requires j < |line| && (j == 0 || Seam(line, j))
    requires !DashAt(line, j) && !PowerAt(line, j) && !StandaloneEAt(line, j)
    requires line[j] != 'f' && !NegatedGroupAt(line, j)
    ensures Normalize(line) == Normalize(line[..j]) + [line[j]] + NormalizeFrom(line, j + 1)
  {
    RuleInContext(line, j);
  }

  /** `**` becomes `^`. */
  lemma PowerExample()
    ensures Normalize("2 ** 3") == "2 ^ 3"
  {
    var l := "2 ** 3";
    PowerInContext(l, 2);
    assert l[..2] == "2 ";
    PlainUnchanged("2 ");
    assert NormalizeFrom(l, 4) == " 3";
  }

  /** `-(` becomes `-1*(`, here after a product sign. */
  lemma NegatedGroupExample()
    ensures Normalize("2*-(1+2)") == "2*-1*(1+2)"
  {
    var l := "2*-(1+2)";
    NegatedGroupInContext(l, 2);
    assert l[..2] == "2*";
    assert Normalize("2*") == "2*";
    assert NormalizeFrom(l, 4) == "1+2)";
  }

  /** A standalone `e` becomes Euler's number. */
  lemma EulerExample()
    ensures Normalize("2*e") == "2*2.7182818"
  {
    var l := "2*e";
    EulerInContext(l, 2);
    assert l[..2] == "2*";
    assert Normalize("2*") == "2*";
  }

  /** An `f` suffix is dropped. */
  lemma SuffixExample()
    ensures Normalize("1.5f") == "1.5"
  {
    var l := "1.5f";
    SuffixInContext(l, 3);
    assert l[..3] == "1.5";
    PlainUnchanged("1.5");
  }

  /** The UTF-8 en dash becomes `-`. */
  lemma DashExample()
    ensures Normalize("4 \U{E2}\U{80}\U{93} 1") == "4 - 1"
  {
    var l := "4 \U{E2}\U{80}\U{93} 1";
    DashInContext(l, 2);
    assert l[..2] == "4 ";
    PlainUnchanged("4 ");
    assert NormalizeFrom(l, 5) == " 1";
  }

  /** A minus sign that does not open a group is copied. */
  lemma MinusExample()
    ensures Normalize("7-2") == "7-2"
  {
    var l := "7-2";
    CopyInContext(l, 1);
    assert l[..1] == "7";
    assert Normalize("7") == "7";
    assert NormalizeFrom(l, 2) == "2";
  }
}
