/** The in-place edits of the polynomial reader (C.c) on a C string: a
    character buffer holding the text up to its first NUL. */
module PolyEdit {
  import opened Common

  /** `a` holds a C string of length `n`: no NUL before `n`, a NUL at `n`. */
  predicate CString(a: array<char>, n: nat)
    reads a
  {
    n < a.Length && a[n] == '\0' && forall k :: 0 <= k < n ==> a[k] != '\0'
  }

  /** The text with every ASCII space removed, everything else kept in
      order. */
  function NoSpaces(s: string): (r: string)
    ensures |r| <= |s|
    decreases |s|
  {
    if s == [] then []
    else NoSpaces(s[..|s| - 1]) + (if s[|s| - 1] == ' ' then [] else [s[|s| - 1]])
  }

  /** `remove_spaces`: compacts the string left over itself, a reading and a
      writing position moving right. */
  method RemoveSpaces(str: array<char>, ghost n: nat)
    requires CString(str, n)
    modifies str
    ensures CString(str, |NoSpaces(old(str[..n]))|)
    ensures str[..|NoSpaces(old(str[..n]))|] == NoSpaces(old(str[..n]))
  {
    ghost var s := str[..n];
    var i := 0;
    var j := 0;
    while str[j] != '\0'
      invariant i <= j <= n
      invariant str[..i] == NoSpaces(s[..j])
      invariant str[j..] == old(str[j..])
      decreases n - j
    {
      str[i] := str[j];
      j := j + 1;
      assert s[..j][..j - 1] == s[..j - 1];
      if str[i] != ' ' {
        i := i + 1;
      }
    }
    assert s[..j] == s;
    str[i] := '\0';
    assert NoSpaces(s) == str[..i];
    assert forall k :: 0 <= k < i ==> str[k] in NoSpaces(s);
    NoSpacesHasNoNul(s);
  }

  lemma {:induction false} NoSpacesHasNoNul(s: string)
    ensures forall k :: 0 <= k < |NoSpaces(s)| ==> NoSpaces(s)[k] in s
    decreases |s|
  {
    if s != [] {
      NoSpacesHasNoNul(s[..|s| - 1]);
      assert forall c :: c in s[..|s| - 1] ==> c in s;
    }
  }

  /** Removing spaces distributes over concatenation, so the kept
      characters stay in their order. */
  lemma {:induction false} NoSpacesAppend(a: string, b: string)
    ensures NoSpaces(a + b) == NoSpaces(a) + NoSpaces(b)
    decreases |b|
  {
    if b == [] {
      assert a + b == a;
    } else {
      var b' := b[..|b| - 1];
      assert (a + b)[..|a + b| - 1] == a + b';
      assert (a + b)[|a + b| - 1] == b[|b| - 1];
      NoSpacesAppend(a, b');
    }
  }

  /** No space is left, every other character keeps its count, and a text
      without spaces is left alone. */
  lemma {:induction false} NoSpacesSound(s: string)
    ensures ' ' !in NoSpaces(s)
    ensures forall c :: c != ' ' ==> multiset(NoSpaces(s))[c] == multiset(s)[c]
    ensures ' ' !in s ==> NoSpaces(s) == s
    decreases |s|
  {
    if s != [] {
      var init, c := s[..|s| - 1], s[|s| - 1];
      NoSpacesSound(init);
      assert s == init + [c];
      KeptLast(init, c, NoSpaces(init), if c == ' ' then [] else [c]);
    }
  }

  /** One more character after a text whose spaces are already removed. */
  lemma KeptLast(init: string, c: char, r: string, tail: string)
    requires tail == if c == ' ' then [] else [c]
    requires ' ' !in r && forall x :: x != ' ' ==> multiset(r)[x] == multiset(init)[x]
    requires ' ' !in init ==> r == init
    ensures ' ' !in r + tail
    ensures forall x :: x != ' ' ==> multiset(r + tail)[x] == multiset(init + [c])[x]
    ensures ' ' !in init + [c] ==> r + tail == init + [c]
  {
    assert multiset(init + [c]) == multiset(init) + multiset{c};
    assert ' ' !in init + [c] ==> ' ' !in init && c != ' ';
  }

  /** Removing spaces twice is removing them once. */
  lemma NoSpacesIdempotent(s: string)
    ensures NoSpaces(NoSpaces(s)) == NoSpaces(s)
  {
    NoSpacesSound(s);
    NoSpacesSound(NoSpaces(s));
  }

  /** The text with each `**` found scanning left to right (so without
      overlaps) replaced by `^`. */
  function ReplaceStars(s: string): (r: string)
    ensures |r| <= |s|
    decreases |s|
  {
    if |s| >= 2 && s[0] == '*' && s[1] == '*' then "^" + ReplaceStars(s[2..])
    else if s == [] then []
    else [s[0]] + ReplaceStars(s[1..])
  }

  /** `strlen` */
  method Length(str: array<char>, ghost n: nat) returns (len: nat)
    requires CString(str, n)
    ensures len == n
  {
    len := 0;
    while str[len] != '\0'
      invariant len <= n
      decreases n - len
    {
      len := len + 1;
    }
  }

  /** The inner loop of `replace_double_star`: moves `str[from + 1..len + 1]`
      one place to the left. */
  method ShiftLeft(str: array<char>, from: nat, len: nat)
    requires 0 < from <= len < str.Length
    modifies str
    ensures str[..from] == old(str[..from])
    ensures str[from..len] == old(str[from + 1..len + 1])
    ensures str[len] == old(str[len])
  {
    var j := from;
    while j < len
      invariant from <= j <= len
      invariant str[..from] == old(str[..from])
      invariant forall k :: from <= k < j ==> str[k] == old(str[k + 1])
      invariant forall k :: j <= k <= len ==> str[k] == old(str[k])
      decreases len - j
    {
      str[j] := str[j + 1];
      j := j + 1;
    }
  }

  /** One replacement: `^` at `i` and the rest shifted left, so the string
      is one shorter. */
  method ReplaceAt(str: array<char>, i: nat, len: nat)
    requires i + 1 < len && CString(str, len)
    modifies str
    ensures CString(str, len - 1)
    ensures str[..len - 1] == old(str[..len])[..i] + "^" + old(str[..len])[i + 2..]
  {
    str[i] := '^';
    ShiftLeft(str, i + 1, len);
    assert str[..len - 1] == old(str[..len])[..i] + "^" + old(str[..len])[i + 2..];
    assert forall k :: 0 <= k < len - 1 ==> str[k] == str[..len - 1][k];
  }

  /** `replace_double_star`: on each `**` writes `^` and shifts the rest of
      the string, its NUL included, one place to the left; the scan goes on
      after the `^`. */
  method ReplaceDoubleStar(str: array<char>, ghost n: nat)
    requires CString(str, n)
    modifies str
    ensures CString(str, |ReplaceStars(old(str[..n]))|)
    ensures str[..|ReplaceStars(old(str[..n]))|] == ReplaceStars(old(str[..n]))
  {
    ghost var s := str[..n];
    var len := Length(str, n);
    var i := 0;
    ghost var t := str[..len];
    assert t == s;
    while i < len - 1
      invariant 0 <= i <= len <= n
      invariant CString(str, len) && t == str[..len]
      invariant ReplaceStars(s) == t[..i] + ReplaceStars(t[i..])
      decreases len - i
    {
      if str[i] == '*' && str[i + 1] == '*' {
        ReplaceAt(str, i, len);
        len := len - 1;
        PairStep(t, str[..len], i);
        t := str[..len];
      } else {
        SingleStep(t, i);
      }
      i := i + 1;
    }
    LastStep(t, i);
  }

  /** A `**` at `i` becomes `^` and the scan resumes after it. */
  lemma PairStep(t: string, t': string, i: nat)
    requires i + 1 < |t| && t[i] == '*' && t[i + 1] == '*' && t' == t[..i] + "^" + t[i + 2..]
    ensures t[..i] + ReplaceStars(t[i..]) == t'[..i + 1] + ReplaceStars(t'[i + 1..])
  {
    assert t[i..][2..] == t[i + 2..] == t'[i + 1..];
    assert t'[..i + 1] == t[..i] + "^";
    AppendAssoc(t[..i], "^", ReplaceStars(t[i + 2..]));
  }

  /** Any other character at `i` is kept and the scan moves on by one. */
  lemma SingleStep(t: string, i: nat)
    requires i + 1 < |t| && !(t[i] == '*' && t[i + 1] == '*')
    ensures t[..i] + ReplaceStars(t[i..]) == t[..i + 1] + ReplaceStars(t[i + 1..])
  {
    assert t[i..][1..] == t[i + 1..];
    assert t[..i + 1] == t[..i] + [t[i]];
    AppendAssoc(t[..i], [t[i]], ReplaceStars(t[i + 1..]));
  }

  /** At most one character left: nothing more to replace. */
  lemma LastStep(t: string, i: nat)
    requires i <= |t| <= i + 1
    ensures t[..i] + ReplaceStars(t[i..]) == t
  {
    assert ReplaceStars(t[i..]) == t[i..];
    assert t[..i] + t[i..] == t;
  }

  /** No `**` is left over. */
  lemma {:induction false} NoDoubleStarLeft(s: string)
    ensures forall k :: 0 <= k < |ReplaceStars(s)| - 1 ==>
              !(ReplaceStars(s)[k] == '*' && ReplaceStars(s)[k + 1] == '*')
    ensures |s| > 0 && s[0] != '*' ==> ReplaceStars(s)[0] == s[0]
    decreases |s|
  {
    if |s| >= 2 && s[0] == '*' && s[1] == '*' {
      NoDoubleStarLeft(s[2..]);
    } else if s != [] {
      NoDoubleStarLeft(s[1..]);
    }
  }

  /** Text without two adjacent stars is left alone; in particular the
      rewrite is idempotent. */
  lemma {:induction false} NoPairUnchanged(s: string)
    requires forall k :: 0 <= k < |s| - 1 ==> !(s[k] == '*' && s[k + 1] == '*')
    ensures ReplaceStars(s) == s
    decreases |s|
  {
    if s != [] {
      NoPairUnchanged(s[1..]);
    }
  }

  lemma ReplaceStarsIdempotent(s: string)
    ensures ReplaceStars(ReplaceStars(s)) == ReplaceStars(s)
  {
    NoDoubleStarLeft(s);
    NoPairUnchanged(ReplaceStars(s));
  }

  /** A text that starts with `**`, and its rewrite, as multisets of
      characters. */
  lemma PairBag(s: string)
    requires |s| >= 2 && s[0] == '*' && s[1] == '*'
    ensures multiset(s) == multiset{'*', '*'} + multiset(s[2..])
    ensures multiset(ReplaceStars(s)) == multiset{'^'} + multiset(ReplaceStars(s[2..]))
  {
    assert s == "**" + s[2..];
    assert ReplaceStars(s) == "^" + ReplaceStars(s[2..]);
  }

  /** A text that does not start with `**`, and its rewrite, as multisets of
      characters. */
  lemma SingleBag(s: string)
    requires s != [] && !(|s| >= 2 && s[0] == '*' && s[1] == '*')
    ensures multiset(s) == multiset{s[0]} + multiset(s[1..])
    ensures multiset(ReplaceStars(s)) == multiset{s[0]} + multiset(ReplaceStars(s[1..]))
  {
    assert s == [s[0]] + s[1..];
    assert ReplaceStars(s) == [s[0]] + ReplaceStars(s[1..]);
  }

  /** Each replacement shortens the text by one and turns two stars into one
      `^`. */
  lemma {:induction false} ReplaceStarsCounts(s: string)
    ensures |s| + multiset(s)['^'] == |ReplaceStars(s)| + multiset(ReplaceStars(s))['^']
    ensures multiset(s)['*'] + 2 * |ReplaceStars(s)| == multiset(ReplaceStars(s))['*'] + 2 * |s|
    decreases |s|
  {
    if |s| >= 2 && s[0] == '*' && s[1] == '*' {
      PairBag(s);
      ReplaceStarsCounts(s[2..]);
    } else if s != [] {
      SingleBag(s);
      ReplaceStarsCounts(s[1..]);
    }
  }

  /** Characters other than `*` and `^` are neither added nor removed. */
  lemma {:induction false} ReplaceStarsKeeps(s: string, c: char)
    requires c != '*' && c != '^'
    ensures multiset(ReplaceStars(s))[c] == multiset(s)[c]
    decreases |s|
  {
    if |s| >= 2 && s[0] == '*' && s[1] == '*' {
      PairBag(s);
      ReplaceStarsKeeps(s[2..], c);
    } else if s != [] {
      SingleBag(s);
      ReplaceStarsKeeps(s[1..], c);
    }
  }

  lemma ReplaceStarsExamples()
    ensures ReplaceStars("****") == "^^"
    ensures ReplaceStars("***") == "^*"
    ensures ReplaceStars("x**2") == "x^2"
  {
  }

  /** `is_blank_line`: every character is white space; the empty string is
      blank. */
  method IsBlankLine(str: array<char>, ghost n: nat) returns (blank: bool)
    requires CString(str, n)
    ensures blank <==> forall k :: 0 <= k < n ==> IsSpace(str[k])
  {
    var i := 0;
    while str[i] != '\0'
      invariant i <= n
      invariant forall k :: 0 <= k < i ==> IsSpace(str[k])
      decreases n - i
    {
      if !IsSpace(str[i]) {
        return false;
      }
      i := i + 1;
    }
    return true;
  }
}
