/** Python `str` operations used by the tools, over ASCII text.

    Every function here follows the CPython method of the same purpose:
    `lower`, `replace`, `split`, `join`, `rstrip`/`strip` with a character
    set, `in`, `splitlines` and `int.__str__`.  Only the ASCII behaviour is
    modelled: the Unicode case mappings, Unicode whitespace and the
    non-ASCII line boundaries are not. */
module Strings {

  // ---------------------------------------------------------------------
  // Character classes
  // ---------------------------------------------------------------------

  predicate IsUpper(c: char) { 'A' <= c <= 'Z' }

  predicate IsLowerLetter(c: char) { 'a' <= c <= 'z' }

  predicate IsDigit(c: char) { '0' <= c <= '9' }

  /** `str.isalnum` on one ASCII character. */
  predicate IsAlnum(c: char) { IsUpper(c) || IsLowerLetter(c) || IsDigit(c) }

  /** The characters `str.strip()` removes when called without arguments (ASCII part). */
  predicate IsSpace(c: char) {
    c == ' ' || c == '\t' || c == '\n' || c == '\r' || c == '\U{000B}' || c == '\U{000C}'
    || c == '\U{001C}' || c == '\U{001D}' || c == '\U{001E}' || c == '\U{001F}'
  }

  /** The characters `str.splitlines()` breaks at (ASCII part). */
  predicate IsLineBreak(c: char) {
    c == '\n' || c == '\r' || c == '\U{000B}' || c == '\U{000C}'
    || c == '\U{001C}' || c == '\U{001D}' || c == '\U{001E}'
  }

  function LowerChar(c: char): (r: char)
    ensures !IsUpper(r)
    ensures IsUpper(c) ==> IsLowerLetter(r)
    ensures !IsUpper(c) ==> r == c
  {
    if IsUpper(c) then (c as int + 32) as char else c
  }

  /** `s.lower()`. */
  function Lower(s: string): (r: string)
    ensures |r| == |s|
    ensures forall i :: 0 <= i < |s| ==> r[i] == LowerChar(s[i])
  {
    seq(|s|, i requires 0 <= i < |s| => LowerChar(s[i]))
  }

  /** `s.replace(" ", "-")`. */
  function SpacesToHyphens(s: string): (r: string)
    ensures |r| == |s|
    ensures forall i :: 0 <= i < |s| ==> r[i] == if s[i] == ' ' then '-' else s[i]
  {
    seq(|s|, i requires 0 <= i < |s| => if s[i] == ' ' then '-' else s[i])
  }

  /** `lower()` leaves no upper-case letter, and lower-casing twice is lower-casing once. */
  lemma LowerIdempotent(s: string)
    ensures forall i :: 0 <= i < |s| ==> !IsUpper(Lower(s)[i])
    ensures Lower(Lower(s)) == Lower(s)
  {
  }

  // ---------------------------------------------------------------------
  // Searching
  // ---------------------------------------------------------------------

  /** `t in s`. */
  predicate Contains(s: string, t: string)
    decreases |s|
  {
    t <= s || (s != [] && Contains(s[1..], t))
  }

  lemma {:induction false} ContainsAt(s: string, t: string, i: nat)
    requires i + |t| <= |s| && s[i..i + |t|] == t
    ensures Contains(s, t)
  {
    if i > 0 {
      assert s[1..][i - 1..i - 1 + |t|] == s[i..i + |t|];
      ContainsAt(s[1..], t, i - 1);
    }
  }

  /** Each inner piece of a text made of six pieces is contained in it. */
  lemma ContainsPieces(p1: string, p2: string, p3: string, p4: string, p5: string, p6: string)
    ensures var s := p1 + p2 + p3 + p4 + p5 + p6;
      Contains(s, p2) && Contains(s, p3) && Contains(s, p4) && Contains(s, p5)
  {
    ContainsEnd(p1, p2);
    ContainsAppended(p1 + p2, p3, p2);
    ContainsAppended(p1 + p2 + p3, p4, p2);
    ContainsAppended(p1 + p2 + p3 + p4, p5, p2);
    ContainsAppended(p1 + p2 + p3 + p4 + p5, p6, p2);
    ContainsEnd(p1 + p2, p3);
    ContainsAppended(p1 + p2 + p3, p4, p3);
    ContainsAppended(p1 + p2 + p3 + p4, p5, p3);
    ContainsAppended(p1 + p2 + p3 + p4 + p5, p6, p3);
    ContainsEnd(p1 + p2 + p3, p4);
    ContainsAppended(p1 + p2 + p3 + p4, p5, p4);
    ContainsAppended(p1 + p2 + p3 + p4 + p5, p6, p4);
    ContainsEnd(p1 + p2 + p3 + p4, p5);
    ContainsAppended(p1 + p2 + p3 + p4 + p5, p6, p5);
  }

  /** A text contains what it ends with. */
  lemma ContainsEnd(a: string, t: string)
    ensures Contains(a + t, t)
  {
    assert (a + t)[|a|..|a| + |t|] == t;
    ContainsAt(a + t, t, |a|);
  }

  /** An occurrence stays one when text is appended. */
  lemma ContainsAppended(a: string, b: string, t: string)
    requires Contains(a, t)
    ensures Contains(a + b, t)
  {
    ContainsOccurs(a, t);
    var i: nat :| OccursAt(a, t, i);
    assert (a + b)[i..i + |t|] == a[i..i + |t|];
    ContainsAt(a + b, t, i);
  }

  /** A prefix of a text is a prefix of the text extended. */
  lemma PrefixExtended(a: string, b: string, c: string)
    requires a <= b
    ensures a <= b + c
  {
    assert (b + c)[..|b|] == b;
  }

  /** `t` occurs in `s` starting at index `i`. */
  predicate OccursAt(s: string, t: string, i: nat) {
    i + |t| <= |s| && s[i..i + |t|] == t
  }

  /** An occurrence is somewhere. */
  lemma {:induction false} ContainsOccurs(s: string, t: string)
    requires Contains(s, t)
    ensures exists i :: OccursAt(s, t, i)
  {
    if t <= s {
      assert OccursAt(s, t, 0);
    } else {
      ContainsOccurs(s[1..], t);
      var i: nat :| OccursAt(s[1..], t, i);
      assert s[i + 1..i + 1 + |t|] == s[1..][i..i + |t|];
      assert OccursAt(s, t, i + 1);
    }
  }

  /** A text lacking one of the characters of `t` does not contain `t`. */
  lemma {:induction false} MissingCharNotContained(s: string, t: string, c: char)
    requires c in t && c !in s
    ensures !Contains(s, t)
  {
    if s != [] {
      MissingCharNotContained(s[1..], t, c);
    }
  }

  /** `s.split(sep)[0]` for a one-character separator: the text before the first `sep`. */
  function BeforeFirst(s: string, sep: char): (r: string)
    ensures r <= s
    ensures sep !in r
    ensures |r| < |s| ==> s[|r|] == sep
  {
    if s == [] || s[0] == sep then [] else [s[0]] + BeforeFirst(s[1..], sep)
  }

  /** The text before the first `sep` of `a + [sep] + b` is `a`, when `a` has no `sep`. */
  lemma {:induction false} BeforeFirstAt(a: string, sep: char, b: string)
    requires sep !in a
    ensures BeforeFirst(a + [sep] + b, sep) == a
  {
    if a != [] {
      BeforeFirstAt(a[1..], sep, b);
      assert (a + [sep] + b)[1..] == a[1..] + [sep] + b;
    }
  }

  /** `s.split(t)[-1]` for a non-empty `t`: the text after the last occurrence of `t`
      met by Python's left-to-right, non-overlapping scan; `s` itself when there is none. */
  function AfterLast(s: string, t: string): (r: string)
    requires |t| > 0
    ensures |r| <= |s| && r == s[|s| - |r|..]
    ensures !Contains(r, t)
    decreases |s|
  {
    if !Contains(s, t) then s
    else if t <= s then AfterLast(s[|t|..], t)
    else AfterLast(s[1..], t)
  }

  /** Text in front of an occurrence keeps it an occurrence. */
  lemma {:induction false} ContainsExtend(a: string, rest: string, t: string)
    requires Contains(rest, t)
    ensures Contains(a + rest, t)
  {
    if a == [] {
      assert a + rest == rest;
    } else {
      ContainsExtend(a[1..], rest, t);
      assert (a + rest)[1..] == a[1..] + rest;
    }
  }

  /** Text without the first character of `t`, in front of an occurrence,
      does not move the last one. */
  lemma {:induction false} AfterLastSkip(a: string, rest: string, t: string)
    requires |t| > 0 && t[0] !in a && Contains(rest, t)
    ensures AfterLast(a + rest, t) == AfterLast(rest, t)
  {
    if a == [] {
      assert a + rest == rest;
    } else {
      ContainsExtend(a, rest, t);
      assert (a + rest)[0] == a[0] != t[0];
      assert (a + rest)[1..] == a[1..] + rest;
      AfterLastSkip(a[1..], rest, t);
    }
  }

  /** After a leading `t`, a text without `t` is what follows the last one. */
  lemma AfterLastLead(t: string, b: string)
    requires |t| > 0 && !Contains(b, t)
    ensures AfterLast(t + b, t) == b
  {
    assert t <= t + b;
    assert (t + b)[|t|..] == b;
  }

  /** `s.endswith(suffix)`. */
  predicate EndsWith(s: string, suffix: string) {
    |suffix| <= |s| && s[|s| - |suffix|..] == suffix
  }

  lemma EndsWithConcat(a: string, b: string)
    ensures EndsWith(a + b, b)
  {
    assert (a + b)[|a|..] == b;
  }

  // ---------------------------------------------------------------------
  // Rewriting
  // ---------------------------------------------------------------------

  /** `rep` before, between and after every character of `s`: what `s.replace("", rep)` gives. */
  function Interleave(s: string, rep: string): (r: string)
    ensures |r| == |s| + (|s| + 1) * |rep|
  {
    if s == [] then rep else rep + [s[0]] + Interleave(s[1..], rep)
  }

  /** `s.replace(pat, rep)`: every occurrence found by a left-to-right, non-overlapping
      scan is substituted. */
  function ReplaceAll(s: string, pat: string, rep: string): string
    decreases |s|
  {
    if pat == [] then Interleave(s, rep)
    else if s == [] then []
    else if pat <= s then rep + ReplaceAll(s[|pat|..], pat, rep)
    else [s[0]] + ReplaceAll(s[1..], pat, rep)
  }

  /** The position-wise space replacement is `s.replace(" ", "-")`, and leaves no space. */
  lemma {:induction false} SpacesToHyphensIsReplace(s: string)
    ensures SpacesToHyphens(s) == ReplaceAll(s, " ", "-")
    ensures ' ' !in SpacesToHyphens(s)
  {
    if s != [] {
      SpacesToHyphensIsReplace(s[1..]);
      var r := SpacesToHyphens(s[1..]);
      if s[0] == ' ' {
        assert " " <= s;
        assert SpacesToHyphens(s) == "-" + r;
      } else {
        assert !(" " <= s);
        assert SpacesToHyphens(s) == [s[0]] + r;
      }
    }
  }

  /** A `replace` whose pattern does not occur changes nothing. */
  lemma {:induction false} ReplaceAbsent(s: string, pat: string, rep: string)
    requires pat != [] && !Contains(s, pat)
    ensures ReplaceAll(s, pat, rep) == s
  {
    if s != [] {
      ReplaceAbsent(s[1..], pat, rep);
    }
  }

  lemma AppendAssoc<T>(a: seq<T>, b: seq<T>, c: seq<T>)
    ensures a + (b + c) == a + b + c
  {
  }

  /** A text that does not start with the pattern's first character keeps that character. */
  lemma ReplaceNoMatchStep(s: string, pat: string, rep: string)
    requires pat != [] && s != [] && s[0] != pat[0]
    ensures ReplaceAll(s, pat, rep) == [s[0]] + ReplaceAll(s[1..], pat, rep)
  {
  }

  /** Text without the pattern's first character passes through a `replace`
      untouched, whatever follows it. */
  lemma {:induction false} ReplaceSkip(a: string, b: string, pat: string, rep: string)
    requires pat != [] && pat[0] !in a
    ensures ReplaceAll(a + b, pat, rep) == a + ReplaceAll(b, pat, rep)
    decreases |a|
  {
    if a == [] {
      assert a + b == b;
    } else {
      var s := a + b;
      ReplaceNoMatchStep(s, pat, rep);
      assert s[1..] == a[1..] + b;
      ReplaceSkip(a[1..], b, pat, rep);
      AppendAssoc([a[0]], a[1..], ReplaceAll(b, pat, rep));
      assert [a[0]] + a[1..] == a;
    }
  }

  /** A prefix match of `a + b` that reaches the last character of `a` holds
      that character. */
  lemma LastCharMatched(a: string, b: string, pat: string)
    requires a != []
    ensures |a| <= |pat| && pat <= a + b ==> pat[|a| - 1] == a[|a| - 1]
  {
    if |a| <= |pat| && pat <= a + b {
      assert pat[|a| - 1] == (a + b)[|a| - 1];
    }
  }

  /** A `replace` distributes over a concatenation whose left part ends in a
      character the pattern lacks: no occurrence can straddle the seam. */
  lemma {:induction false} ReplaceConcat(a: string, b: string, pat: string, rep: string)
    requires pat != [] && a != [] && a[|a| - 1] !in pat
    ensures ReplaceAll(a + b, pat, rep) == ReplaceAll(a, pat, rep) + ReplaceAll(b, pat, rep)
    decreases |a|, 1
  {
    if pat <= a + b {
      ReplaceConcatAfterMatch(a, b, pat, rep);
    } else {
      ReplaceConcatAfterSkip(a, b, pat, rep);
    }
  }

  lemma {:induction false} ReplaceConcatAfterMatch(a: string, b: string, pat: string, rep: string)
    requires pat != [] && a != [] && a[|a| - 1] !in pat && pat <= a + b
    ensures ReplaceAll(a + b, pat, rep) == ReplaceAll(a, pat, rep) + ReplaceAll(b, pat, rep)
    decreases |a|, 0
  {
    LastCharMatched(a, b, pat);
    assert |pat| < |a|;
    ReplaceConcatMatch(a, b, pat, rep);
    var a' := a[|pat|..];
    assert a'[|a'| - 1] == a[|a| - 1];
    ReplaceConcat(a', b, pat, rep);
    AppendAssoc(rep, ReplaceAll(a', pat, rep), ReplaceAll(b, pat, rep));
  }

  lemma {:induction false} ReplaceConcatAfterSkip(a: string, b: string, pat: string, rep: string)
    requires pat != [] && a != [] && a[|a| - 1] !in pat && !(pat <= a + b)
    ensures ReplaceAll(a + b, pat, rep) == ReplaceAll(a, pat, rep) + ReplaceAll(b, pat, rep)
    decreases |a|, 0
  {
    ReplaceConcatSkip(a, b, pat, rep);
    var a' := a[1..];
    var ra', rb := ReplaceAll(a', pat, rep), ReplaceAll(b, pat, rep);
    if a' == [] {
      ReplaceEmptyConcat(b, pat, rep);
    } else {
      assert a'[|a'| - 1] == a[|a| - 1];
      ReplaceConcat(a', b, pat, rep);
    }
    calc {
      ReplaceAll(a + b, pat, rep);
      [a[0]] + ReplaceAll(a' + b, pat, rep);
      [a[0]] + (ra' + rb);
      { AppendAssoc([a[0]], ra', rb); }
      [a[0]] + ra' + rb;
      ReplaceAll(a, pat, rep) + rb;
    }
  }

  lemma ReplaceEmptyConcat(b: string, pat: string, rep: string)
    requires pat != []
    ensures ReplaceAll([] + b, pat, rep) == ReplaceAll([], pat, rep) + ReplaceAll(b, pat, rep)
  {
    assert [] + b == b;
  }

  /** A match at the front of `a + b` that ends inside `a` is a match at the
      front of `a`. */
  lemma ReplaceConcatMatch(a: string, b: string, pat: string, rep: string)
    requires pat != [] && pat <= a + b && |pat| < |a|
    ensures ReplaceAll(a + b, pat, rep) == rep + ReplaceAll(a[|pat|..] + b, pat, rep)
    ensures ReplaceAll(a, pat, rep) == rep + ReplaceAll(a[|pat|..], pat, rep)
  {
    assert (a + b)[..|pat|] == a[..|pat|];
    assert (a + b)[|pat|..] == a[|pat|..] + b;
  }

  /** No match at the front of `a + b` means none at the front of `a`. */
  lemma ReplaceConcatSkip(a: string, b: string, pat: string, rep: string)
    requires pat != [] && a != [] && !(pat <= a + b)
    ensures ReplaceAll(a + b, pat, rep) == [a[0]] + ReplaceAll(a[1..] + b, pat, rep)
    ensures ReplaceAll(a, pat, rep) == [a[0]] + ReplaceAll(a[1..], pat, rep)
  {
    assert (a + b)[1..] == a[1..] + b;
    PrefixExtends(pat, a, b);
  }

  lemma PrefixExtends<T>(p: seq<T>, a: seq<T>, b: seq<T>)
    ensures p <= a ==> p <= a + b
  {
    if p <= a {
      assert (a + b)[..|p|] == a[..|p|];
    }
  }

  /** A prefix match of `s + pat` that starts inside a `s` shorter than the
      pattern makes the pattern's first character recur in it. */
  lemma EarlyMatchRecurs(s: string, pat: string)
    requires 0 < |s| < |pat|
    ensures pat <= s + pat ==> pat[0] in pat[1..]
  {
    if pat <= s + pat {
      assert pat[|s|] == (s + pat)[|s|] == pat[0];
      assert pat[1..][|s| - 1] == pat[|s|];
    }
  }

  /** A pattern whose first character does not recur in it cannot overlap the
      text before it, so an appended copy is replaced on its own. */
  lemma {:induction false} ReplaceAppended(s: string, pat: string, rep: string)
    requires pat != [] && pat[0] !in pat[1..]
    ensures ReplaceAll(s + pat, pat, rep) == ReplaceAll(s, pat, rep) + rep
    decreases |s|
  {
    if s == [] {
      assert s + pat == pat;
      assert pat[|pat|..] == [];
    } else if pat <= s {
      assert pat <= s + pat;
      assert (s + pat)[|pat|..] == s[|pat|..] + pat;
      ReplaceAppended(s[|pat|..], pat, rep);
    } else {
      if |s| < |pat| {
        EarlyMatchRecurs(s, pat);
      } else {
        assert (s + pat)[..|pat|] == s[..|pat|];
      }
      assert (s + pat)[1..] == s[1..] + pat;
      ReplaceAppended(s[1..], pat, rep);
    }
  }

  /** `s.rstrip(c)`: drop every trailing `c`. */
  function RStrip(s: string, c: char): (r: string)
    ensures r <= s
    ensures r == [] || r[|r| - 1] != c
    ensures forall i :: |r| <= i < |s| ==> s[i] == c
  {
    if s == [] || s[|s| - 1] != c then s else RStrip(s[..|s| - 1], c)
  }

  /** Every character of `t` is whitespace. */
  predicate AllSpace(t: string) {
    forall i :: 0 <= i < |t| ==> IsSpace(t[i])
  }

  /** `s.lstrip()`: what is left once the leading whitespace is gone. */
  function LStripSpace(s: string): (r: string)
    ensures |r| <= |s| && r == s[|s| - |r|..]
    ensures AllSpace(s[..|s| - |r|])
  {
    if s == [] || !IsSpace(s[0]) then s
    else
      var r := LStripSpace(s[1..]);
      assert s[..|s| - |r|] == [s[0]] + s[1..][..|s| - 1 - |r|];
      r
  }

  /** `s.rstrip()`: what is left once the trailing whitespace is gone. */
  function RStripSpace(s: string): (r: string)
    ensures r <= s
    ensures AllSpace(s[|r|..])
  {
    if s == [] || !IsSpace(s[|s| - 1]) then s
    else
      var r := RStripSpace(s[..|s| - 1]);
      assert s[|r|..] == s[..|s| - 1][|r|..] + [s[|s| - 1]];
      r
  }

  lemma {:induction false} LStripSpaceStart(s: string)
    ensures LStripSpace(s) == [] || !IsSpace(LStripSpace(s)[0])
  {
    if s != [] && IsSpace(s[0]) {
      LStripSpaceStart(s[1..]);
    }
  }

  lemma {:induction false} RStripSpaceEnd(s: string)
    ensures RStripSpace(s) == [] || !IsSpace(RStripSpace(s)[|RStripSpace(s)| - 1])
  {
    if s != [] && IsSpace(s[|s| - 1]) {
      RStripSpaceEnd(s[..|s| - 1]);
    }
  }

  /** `s[lo..hi]` is what is left of `s` once whitespace is taken off its two
      ends: everything before `lo` and from `hi` on is whitespace. */
  predicate SpaceTrimmedAt(s: string, lo: int, hi: int) {
    0 <= lo <= hi <= |s| && AllSpace(s[..lo]) && AllSpace(s[hi..])
  }

  /** `s.strip()`: leading and trailing whitespace removed. With the first
      clause, the second pins the result down: it is the slice of `s` left once
      the whitespace at both ends, and nothing else, is gone. */
  function Strip(s: string): (r: string)
    ensures r == [] || (!IsSpace(r[0]) && !IsSpace(r[|r| - 1]))
    ensures exists lo, hi :: SpaceTrimmedAt(s, lo, hi) && r == s[lo..hi]
  {
    var l := LStripSpace(s);
    StripSpaceTrimmed(s, l, RStripSpace(l));
    StripSpaceEnds(s, l, RStripSpace(l));
    RStripSpace(l)
  }

  /** A prefix `r` of the suffix `l` of `s` is a slice of `s`, and what
      follows it in `l` is what follows it in `s`. */
  lemma SliceOfSuffix(s: string, l: string, r: string)
    requires |l| <= |s| && l == s[|s| - |l|..] && r <= l
    ensures r == s[|s| - |l|..|s| - |l| + |r|]
    ensures s[|s| - |l| + |r|..] == l[|r|..]
  {
  }

  lemma TrimmedFromParts(s: string, l: string, r: string)
    requires |l| <= |s| && l == s[|s| - |l|..] && r <= l
    requires AllSpace(s[..|s| - |l|]) && AllSpace(l[|r|..])
    ensures SpaceTrimmedAt(s, |s| - |l|, |s| - |l| + |r|) && r == s[|s| - |l|..|s| - |l| + |r|]
  {
    SliceOfSuffix(s, l, r);
  }

  lemma StripSpaceTrimmed(s: string, l: string, r: string)
    requires l == LStripSpace(s) && r == RStripSpace(l)
    ensures SpaceTrimmedAt(s, |s| - |l|, |s| - |l| + |r|) && r == s[|s| - |l|..|s| - |l| + |r|]
  {
    TrimmedFromParts(s, l, r);
  }

  lemma StripSpaceEnds(s: string, l: string, r: string)
    requires l == LStripSpace(s) && r == RStripSpace(l)
    ensures r == [] || (!IsSpace(r[0]) && !IsSpace(r[|r| - 1]))
  {
    LStripSpaceStart(s);
    RStripSpaceEnd(l);
    EndsFromParts(l, r);
  }

  lemma EndsFromParts(l: string, r: string)
    requires r <= l
    requires l == [] || !IsSpace(l[0])
    requires r == [] || !IsSpace(r[|r| - 1])
    ensures r == [] || (!IsSpace(r[0]) && !IsSpace(r[|r| - 1]))
  {
    if r != [] {
      assert r[0] == l[0];
    }
  }

  /** Leading whitespace does not change `lstrip()`. */
  lemma {:induction false} LStripSpaceLead(ws: string, t: string)
    requires AllSpace(ws)
    ensures LStripSpace(ws + t) == LStripSpace(t)
  {
    if ws != [] {
      assert (ws + t)[0] == ws[0] && IsSpace(ws[0]);
      assert (ws + t)[1..] == ws[1..] + t;
      LStripSpaceLead(ws[1..], t);
    } else {
      assert ws + t == t;
    }
  }

  /** `rstrip()` stops inside the tail when the head ends with a non-space. */
  lemma {:induction false} RStripSpaceKeeps(p: string, q: string)
    requires p != [] && !IsSpace(p[|p| - 1])
    ensures RStripSpace(p + q) == p + RStripSpace(q)
  {
    if q != [] && IsSpace(q[|q| - 1]) {
      assert (p + q)[|p + q| - 1] == q[|q| - 1];
      assert (p + q)[..|p + q| - 1] == p + q[..|q| - 1];
      RStripSpaceKeeps(p, q[..|q| - 1]);
    } else if q == [] {
      assert p + q == p;
    } else {
      assert (p + q)[|p + q| - 1] == q[|q| - 1];
    }
  }

  /** Stripping an indented line: the indentation goes, and a line that starts
      with `head` (starting and ending with a non-space) keeps `head` and its
      tail with trailing whitespace removed. */
  lemma StripIndented(ws: string, head: string, tail: string)
    requires AllSpace(ws)
    requires head != [] && !IsSpace(head[0]) && !IsSpace(head[|head| - 1])
    ensures Strip(ws + (head + tail)) == head + RStripSpace(tail)
  {
    LStripSpaceLead(ws, head + tail);
    assert (head + tail)[0] == head[0];
    assert LStripSpace(head + tail) == head + tail;
    RStripSpaceKeeps(head, tail);
  }

  /** A text that neither starts nor ends with whitespace is its own `strip()`. */
  lemma StripUnchanged(s: string)
    requires s == [] || (!IsSpace(s[0]) && !IsSpace(s[|s| - 1]))
    ensures Strip(s) == s
  {
    var l := LStripSpace(s);
    assert l == s;
    var r := RStripSpace(l);
    assert r == s;
    assert Strip(s) == r;
  }

  /** `s.lstrip(c)`: drop every leading `c`. */
  function LStrip(s: string, c: char): (r: string)
    ensures |r| <= |s| && r == s[|s| - |r|..]
    ensures r == [] || r[0] != c
    ensures forall i :: 0 <= i < |s| - |r| ==> s[i] == c
  {
    if s == [] || s[0] != c then s else LStrip(s[1..], c)
  }

  /** `s.strip(c)` for one character `c`. */
  function StripChar(s: string, c: char): (r: string)
    ensures r == [] || (r[0] != c && r[|r| - 1] != c)
  {
    RStrip(LStrip(s, c), c)
  }

  /** What `s.strip(c)` keeps is one contiguous slice of `s`, and everything
      before and after it is `c`: with the ends of the result not being `c`,
      this pins `strip(c)` down. */
  lemma StripCharSlice(s: string, c: char) returns (lo: nat, hi: nat)
    ensures lo <= hi <= |s| && StripChar(s, c) == s[lo..hi]
    ensures forall i :: 0 <= i < lo ==> s[i] == c
    ensures forall i :: hi <= i < |s| ==> s[i] == c
  {
    var l := LStrip(s, c);
    var r := RStrip(l, c);
    CharTrimmedParts(s, l, r, c);
    lo := |s| - |l|;
    hi := lo + |r|;
    assert StripChar(s, c) == r;
  }

  /** A prefix `r` of the suffix `l` of `s`, with only `c` cut off on either
      side, is the slice of `s` between those runs of `c`. */
  lemma CharTrimmedParts(s: string, l: string, r: string, c: char)
    requires |l| <= |s| && l == s[|s| - |l|..]
    requires r <= l
    requires forall i :: |r| <= i < |l| ==> l[i] == c
    ensures r == s[|s| - |l|..|s| - |l| + |r|]
    ensures forall i :: |s| - |l| + |r| <= i < |s| ==> s[i] == c
  {
    var lo := |s| - |l|;
    forall i | lo + |r| <= i < |s|
      ensures s[i] == c
    {
      assert s[i] == l[i - lo];
    }
    assert r == l[..|r|];
    assert l[..|r|] == s[lo..lo + |r|];
  }

  /** A text that neither starts nor ends with `c` is its own `strip(c)`. */
  lemma StripCharUnchanged(s: string, c: char)
    requires s == [] || (s[0] != c && s[|s| - 1] != c)
    ensures StripChar(s, c) == s
  {
  }

  // ---------------------------------------------------------------------
  // Splitting and joining
  // ---------------------------------------------------------------------

  /** `s.split(sep)` for a one-character separator: the pieces between separators,
      always at least one, none containing `sep`. */
  function Split(s: string, sep: char): (parts: seq<string>)
    ensures |parts| >= 1
    ensures forall k :: 0 <= k < |parts| ==> sep !in parts[k]
    decreases |s|
  {
    if s == [] then [[]]
    else
      var rest := Split(s[1..], sep);
      if s[0] == sep then [[]] + rest
      else [[s[0]] + rest[0]] + rest[1..]
  }

  lemma SplitAfterSep(s: string, sep: char)
    ensures Split([sep] + s, sep) == [[]] + Split(s, sep)
  {
    assert ([sep] + s)[1..] == s;
  }

  /** A prefix without the separator is glued to the first piece of what follows. */
  lemma {:induction false} SplitFreePrefix(a: string, rest: string, sep: char)
    requires sep !in a
    ensures Split(a + rest, sep) == [a + Split(rest, sep)[0]] + Split(rest, sep)[1..]
  {
    if a == [] {
      var parts := Split(rest, sep);
      assert a + rest == rest;
      assert a + parts[0] == parts[0];
      assert parts == [parts[0]] + parts[1..];
    } else {
      var t := a[1..] + rest;
      SplitFreePrefix(a[1..], rest, sep);
      assert a + rest == [a[0]] + t;
      SplitUnfold(a[0], t, sep);
      AppendAssoc([a[0]], a[1..], Split(rest, sep)[0]);
      assert [a[0]] + a[1..] == a;
    }
  }

  /** A text without the separator is one piece. */
  lemma SplitNoSep(s: string, sep: char)
    requires sep !in s
    ensures Split(s, sep) == [s]
  {
    SplitFreePrefix(s, [], sep);
    assert s + [] == s;
  }

  /** Two separator-free texts around one separator split into the two. */
  lemma SplitPair(a: string, b: string, sep: char)
    requires sep !in a && sep !in b
    ensures Split(a + [sep] + b, sep) == [a, b]
  {
    SplitFreePrefix(a, [sep] + b, sep);
    SplitAfterSep(b, sep);
    SplitNoSep(b, sep);
    assert a + [sep] + b == a + ([sep] + b);
    assert a + [] == a;
  }

  /** `s.split(sep)` has one more piece than `s` has separators. */
  lemma {:induction false} SplitCount(s: string, sep: char)
    ensures |Split(s, sep)| == 1 + multiset(s)[sep]
  {
    if s != [] {
      SplitCount(s[1..], sep);
      assert s == [s[0]] + s[1..];
      assert multiset(s) == multiset{s[0]} + multiset(s[1..]);
    }
  }

  /** Splitting at a separator splits the two sides on their own. */
  lemma {:induction false} SplitAppend(a: string, b: string, sep: char)
    ensures Split(a + [sep] + b, sep) == Split(a, sep) + Split(b, sep)
  {
    if a == [] {
      assert a + [sep] + b == [sep] + b;
      SplitAfterSep(b, sep);
    } else {
      var t := a[1..] + [sep] + b;
      assert a + [sep] + b == [a[0]] + t;
      assert [a[0]] + a[1..] == a;
      SplitAppend(a[1..], b, sep);
      SplitUnfold(a[0], t, sep);
      SplitUnfold(a[0], a[1..], sep);
      ConsPieces(a[0], Split(a[1..], sep), Split(b, sep), sep);
    }
  }

  /** The pieces of `[c] + s` from those of `s`, when those are `rest + tail`. */
  lemma ConsPieces(c: char, rest: seq<string>, tail: seq<string>, sep: char)
    requires |rest| >= 1
    ensures (if c == sep then [[]] + (rest + tail) else [[c] + (rest + tail)[0]] + (rest + tail)[1..])
         == (if c == sep then [[]] + rest else [[c] + rest[0]] + rest[1..]) + tail
  {
    if c != sep {
      assert (rest + tail)[1..] == rest[1..] + tail;
    }
  }

  lemma SplitUnfold(c: char, s: string, sep: char)
    ensures Split([c] + s, sep)
         == if c == sep then [[]] + Split(s, sep) else [[c] + Split(s, sep)[0]] + Split(s, sep)[1..]
  {
    assert ([c] + s)[1..] == s;
  }

  /** `s[:n]`. */
  function Take<T>(s: seq<T>, n: nat): (r: seq<T>)
    ensures r <= s
    ensures |r| == if |s| <= n then |s| else n
  {
    if |s| <= n then s else s[..n]
  }

  /** `sep.join(parts)`. */
  function Join(sep: string, parts: seq<string>): string
  {
    if |parts| == 0 then []
    else if |parts| == 1 then parts[0]
    else parts[0] + sep + Join(sep, parts[1..])
  }

  /** Joining the pieces of a split with the separator gives the text back. */
  lemma {:induction false} JoinSplit(s: string, sep: char)
    ensures Join([sep], Split(s, sep)) == s
  {
    if s != [] {
      JoinSplit(s[1..], sep);
      var rest := Split(s[1..], sep);
      if s[0] != sep && |rest| > 1 {
        assert Join([sep], Split(s, sep)) == [s[0]] + rest[0] + [sep] + Join([sep], rest[1..]);
      }
    }
  }

  /** Index of the first line boundary of `s`, or `|s|` when there is none. */
  function FirstBreak(s: string): (i: nat)
    ensures i <= |s|
    ensures i < |s| ==> IsLineBreak(s[i])
    ensures forall k :: 0 <= k < i ==> !IsLineBreak(s[k])
  {
    if s == [] || IsLineBreak(s[0]) then 0 else 1 + FirstBreak(s[1..])
  }

  /** Where the line after the first boundary of `s` starts. */
  function NextLine(s: string): (j: nat)
    requires FirstBreak(s) < |s|
    ensures FirstBreak(s) < j <= |s|
  {
    var i := FirstBreak(s);
    if s[i] == '\r' && i + 1 < |s| && s[i + 1] == '\n' then i + 2 else i + 1
  }

  /** `s.splitlines()`: the lines of `s` without their boundaries; `"\r\n"` is one
      boundary, and a final boundary does not start an empty last line. */
  function SplitLines(s: string): (lines: seq<string>)
    ensures |lines| <= |s|
    ensures s != [] ==> |lines| >= 1
    decreases |s|
  {
    if s == [] then []
    else
      var i := FirstBreak(s);
      if i == |s| then [s]
      else [s[..i]] + SplitLines(s[NextLine(s)..])
  }

  /** A line boundary of `str.splitlines()`: `"\r\n"` or one break character. */
  predicate IsBoundary(b: string) {
    b == "\r\n" || (|b| == 1 && IsLineBreak(b[0]))
  }

  /** The boundary that ends each line of `SplitLines(s)`; a last line that runs
      to the end of the text has the empty ending. */
  function LineEnds(s: string): (ends: seq<string>)
    ensures |ends| == |SplitLines(s)|
    ensures forall k :: 0 <= k < |ends| ==> IsBoundary(ends[k]) || (k == |ends| - 1 && ends[k] == [])
    decreases |s|
  {
    if s == [] then []
    else
      var i := FirstBreak(s);
      if i == |s| then [[]]
      else
        var j := NextLine(s);
        var b := s[i..j];
        assert IsBoundary(b) by {
          if j == i + 2 {
            assert b[0] == '\r' && b[1] == '\n';
          } else {
            assert |b| == 1 && b[0] == s[i];
          }
        }
        var rest := LineEnds(s[j..]);
        assert |SplitLines(s)| == 1 + |rest|;
        [b] + rest
  }

  /** The split is the canonical one: a line without an ending is not empty
      (a final boundary starts no empty last line), and `"\r"` followed by
      `"\n"` is one `"\r\n"` boundary, never a `"\r"` ending followed by an
      empty line ending in `"\n"`. */
  lemma {:induction false} LineEndsCanonical(s: string)
    ensures forall k :: 0 <= k < |LineEnds(s)| && LineEnds(s)[k] == [] ==> SplitLines(s)[k] != []
    ensures forall k :: 0 <= k < |LineEnds(s)| - 1 && LineEnds(s)[k] == "\r" ==>
      !(SplitLines(s)[k + 1] == [] && LineEnds(s)[k + 1] == "\n")
    decreases |s|
  {
    if s != [] && FirstBreak(s) < |s| {
      var i, j := FirstBreak(s), NextLine(s);
      var t := s[j..];
      LineEndsCanonical(t);
      var lines, ends := SplitLines(s), LineEnds(s);
      var lines', ends' := SplitLines(t), LineEnds(t);
      assert lines == [s[..i]] + lines';
      assert ends == [s[i..j]] + ends';
      assert |ends[0]| == j - i > 0;
      forall k | 0 <= k < |ends| && ends[k] == []
        ensures lines[k] != []
      {
        if k > 0 {
          assert ends'[k - 1] == [] && lines[k] == lines'[k - 1];
          assert lines'[k - 1] != [];
        }
      }
      forall k | 0 <= k < |ends| - 1 && ends[k] == "\r"
        ensures !(lines[k + 1] == [] && ends[k + 1] == "\n")
      {
        if k > 0 {
          assert ends'[k - 1] == "\r" && lines[k + 1] == lines'[k] && ends[k + 1] == ends'[k];
        } else {
          CrNotBeforeEmptyLf(s);
        }
      }
    }
  }

  /** A lone `"\r"` ending is not followed by an empty line ending in `"\n"`. */
  lemma CrNotBeforeEmptyLf(s: string)
    requires s != [] && FirstBreak(s) < |s|
    requires s[FirstBreak(s)..NextLine(s)] == "\r"
    ensures var t := s[NextLine(s)..];
      !(SplitLines(t) != [] && SplitLines(t)[0] == [] && LineEnds(t)[0] == "\n")
  {
    var t := s[NextLine(s)..];
    if SplitLines(t) != [] && SplitLines(t)[0] == [] {
      EmptyFirstLine(t);
      assert t[0] == s[FirstBreak(s) + 1];
    }
  }

  /** A text whose first line is empty opens with its first boundary. */
  lemma EmptyFirstLine(t: string)
    requires SplitLines(t) != [] && SplitLines(t)[0] == []
    ensures t != [] && FirstBreak(t) == 0 && LineEnds(t)[0] == t[..NextLine(t)]
  {
  }

  /** Each line followed by its ending, one after the other. */
  function Rejoin(lines: seq<string>, ends: seq<string>): string
    requires |lines| == |ends|
  {
    if lines == [] then [] else lines[0] + ends[0] + Rejoin(lines[1..], ends[1..])
  }

  /** The lines of `s`, each put back with the boundary that ended it, give `s`. */
  lemma {:induction false} SplitLinesRoundTrip(s: string)
    ensures Rejoin(SplitLines(s), LineEnds(s)) == s
    decreases |s|
  {
    if s != [] {
      var i := FirstBreak(s);
      if i < |s| {
        var n := NextLine(s);
        var t := s[n..];
        SplitLinesRoundTrip(t);
        var lines, ends := SplitLines(s), LineEnds(s);
        assert lines == [s[..i]] + SplitLines(t);
        assert ends == [s[i..n]] + LineEnds(t);
        assert lines[1..] == SplitLines(t) && ends[1..] == LineEnds(t);
        assert Rejoin(lines, ends) == s[..i] + s[i..n] + Rejoin(SplitLines(t), LineEnds(t));
        SliceThree(s, i, n);
      } else {
        assert SplitLines(s) == [s] && LineEnds(s) == [[]];
      }
    }
  }

  /** A text is its three slices at `i` and `n` put together. */
  lemma SliceThree(s: string, i: nat, n: nat)
    requires i <= n <= |s|
    ensures s == s[..i] + s[i..n] + s[n..]
  {
  }

  /** No line holds a line boundary. */
  lemma {:induction false} LinesWithoutBreaks(s: string)
    ensures forall k, j :: 0 <= k < |SplitLines(s)| && 0 <= j < |SplitLines(s)[k]| ==> !IsLineBreak(SplitLines(s)[k][j])
    decreases |s|
  {
    if s != [] && FirstBreak(s) < |s| {
      var rest := s[NextLine(s)..];
      LinesWithoutBreaks(rest);
      assert SplitLines(s) == [s[..FirstBreak(s)]] + SplitLines(rest);
    }
  }

  /** A prefix of `s` meets its first line boundary where `s` does, if it meets one. */
  lemma {:induction false} FirstBreakPrefix(p: string, s: string)
    requires p <= s
    ensures FirstBreak(p) <= FirstBreak(s)
    ensures FirstBreak(p) < |p| ==> FirstBreak(s) == FirstBreak(p)
  {
    if p != [] && !IsLineBreak(p[0]) {
      FirstBreakPrefix(p[1..], s[1..]);
    }
  }

  lemma SplitLinesStep(s: string)
    requires FirstBreak(s) < |s|
    ensures |SplitLines(s)| == 1 + |SplitLines(s[NextLine(s)..])|
  {
  }

  /** A prefix of a text has no more lines than the text. */
  lemma {:induction false} SplitLinesPrefix(p: string, s: string)
    requires p <= s
    ensures |SplitLines(p)| <= |SplitLines(s)|
    decreases |p|
  {
    if p != [] && FirstBreak(p) < |p| {
      BreakInPrefix(p, s);
      var np, ns := NextLine(p), NextLine(s);
      SplitLinesStep(p);
      SplitLinesStep(s);
      if np == ns {
        SplitLinesPrefix(p[np..], s[ns..]);
      } else {
        assert p[np..] == [];
      }
    }
  }

  /** The first boundary of a prefix is the text's, and the prefix's next line
      starts where the text's does unless the prefix ends there. */
  lemma BreakInPrefix(p: string, s: string)
    requires p <= s && FirstBreak(p) < |p|
    ensures FirstBreak(s) < |s|
    ensures NextLine(p) == |p| || (NextLine(p) == NextLine(s) && p[NextLine(p)..] <= s[NextLine(s)..])
  {
    FirstBreakPrefix(p, s);
    var i := FirstBreak(p);
    assert s[i] == p[i];
    var np := NextLine(p);
    if np < |p| {
      assert s[i + 1] == p[i + 1];
      assert NextLine(s) == np;
      assert p[np..] == s[np..|p|];
    }
  }

  // ---------------------------------------------------------------------
  // Numbers
  // ---------------------------------------------------------------------

  function DigitChar(d: nat): (c: char)
    requires d < 10
    ensures IsDigit(c)
  {
    ('0' as int + d) as char
  }

  /** `str(n)` for a natural number: its decimal digits, no leading zero. */
  function NatToString(n: nat): (r: string)
    ensures |r| >= 1
    ensures forall i :: 0 <= i < |r| ==> IsDigit(r[i])
    ensures |r| > 1 ==> r[0] != '0'
    ensures DigitsValue(r) == n
  {
    if n < 10 then [DigitChar(n)]
    else
      var head := NatToString(n / 10);
      var r := head + [DigitChar(n % 10)];
      assert r[..|r| - 1] == head;
      r
  }

  /** `n` in exactly `width` decimal digits, zero-padded (strftime's `%02d`, `%04d`). */
  function Digits(n: nat, width: nat): (r: string)
    ensures |r| == width
    ensures forall i :: 0 <= i < |r| ==> IsDigit(r[i])
  {
    if width == 0 then [] else Digits(n / 10, width - 1) + [DigitChar(n % 10)]
  }

  function DigitValue(c: char): nat
    requires IsDigit(c)
  {
    c as int - '0' as int
  }

  /** The number a string of decimal digits denotes. */
  function DigitsValue(s: string): nat
    requires forall i :: 0 <= i < |s| ==> IsDigit(s[i])
  {
    if s == [] then 0 else 10 * DigitsValue(s[..|s| - 1]) + DigitValue(s[|s| - 1])
  }

  function Pow10(k: nat): (p: nat)
    ensures p >= 1
  {
    if k == 0 then 1 else 10 * Pow10(k - 1)
  }

  /** Reading back a zero-padded number gives it back when it fits in the width. */
  lemma {:induction false} DigitsRoundTrip(n: nat, width: nat)
    requires n < Pow10(width)
    ensures DigitsValue(Digits(n, width)) == n
  {
    if width > 0 {
      DigitsRoundTrip(n / 10, width - 1);
      var r := Digits(n, width);
      assert r[..|r| - 1] == Digits(n / 10, width - 1);
    }
  }
}
