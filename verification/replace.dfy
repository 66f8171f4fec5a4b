/** Python's `str.replace(pat, rep)` with a non-empty pattern: every
    non-overlapping occurrence of `pat`, found scanning left to right, is
    replaced by `rep`; the replacement text is not scanned again. Also the
    placeholders `{i}` that the renderer replaces, and how they behave under
    replacement. */
module Replace {
  import opened Decimal

  /** `pat` occurs in `s` starting at index `i`. */
  predicate MatchAt(s: string, pat: string, i: nat) {
    i + |pat| <= |s| && s[i..i + |pat|] == pat
  }

  ghost predicate Contains(s: string, pat: string) {
    exists i: nat :: MatchAt(s, pat, i)
  }

  /** Matches in a suffix are matches in the whole string, shifted. */
  lemma MatchAtSuffix(s: string, pat: string, k: nat, i: nat)
    requires k <= |s|
    ensures MatchAt(s[k..], pat, i) <==> MatchAt(s, pat, k + i)
  {
    if k + i + |pat| <= |s| {
      assert s[k..][i..i + |pat|] == s[k + i..k + i + |pat|];
    }
  }

  function ReplaceAll(s: string, pat: string, rep: string): string
    requires |pat| > 0
    decreases |s|
  {
    if |s| < |pat| then s
    else if s[..|pat|] == pat then rep + ReplaceAll(s[|pat|..], pat, rep)
    else [s[0]] + ReplaceAll(s[1..], pat, rep)
  }

  /** Without an occurrence of the pattern the string is returned unchanged. */
  lemma {:induction false} ReplaceAllAbsent(s: string, pat: string, rep: string)
    requires |pat| > 0 && !Contains(s, pat)
    ensures ReplaceAll(s, pat, rep) == s
    decreases |s|
  {
    if |s| >= |pat| {
      assert !MatchAt(s, pat, 0);
      forall i: nat ensures !MatchAt(s[1..], pat, i) {
        MatchAtSuffix(s, pat, 1, i);
      }
      ReplaceAllAbsent(s[1..], pat, rep);
    }
  }

  /** One step of the scan when the pattern does not start the string. */
  lemma ReplaceAllStep(s: string, pat: string, rep: string)
    requires |pat| > 0 && |s| > 0 && !MatchAt(s, pat, 0)
    ensures ReplaceAll(s, pat, rep) == [s[0]] + ReplaceAll(s[1..], pat, rep)
  {
    if |s| < |pat| {
      assert s == [s[0]] + s[1..];
    }
  }

  /** One step of the scan when the pattern starts the string. */
  lemma ReplaceAllMatchStep(s: string, pat: string, rep: string)
    requires |pat| > 0 && MatchAt(s, pat, 0)
    ensures ReplaceAll(s, pat, rep) == rep + ReplaceAll(s[|pat|..], pat, rep)
  {
    assert s[..|pat|] == pat;
  }

  /** When no occurrence of `pat` straddles the boundary between `x` and `w`,
      replacing in the concatenation is replacing in each part. */
  lemma {:induction false} ReplaceAllConcat(x: string, w: string, pat: string, rep: string)
    requires |pat| > 0
    requires forall i: nat :: i < |x| < i + |pat| ==> !MatchAt(x + w, pat, i)
    ensures ReplaceAll(x + w, pat, rep) == ReplaceAll(x, pat, rep) + ReplaceAll(w, pat, rep)
    decreases |x|
  {
    var s := x + w;
    if x == [] {
      assert s == w;
    } else if MatchAt(s, pat, 0) {
      assert |pat| <= |x|;
      assert MatchAt(x, pat, 0) by {
        assert x[..|pat|] == s[..|pat|];
      }
      var x' := x[|pat|..];
      assert s[|pat|..] == x' + w;
      forall i: nat | i < |x'| < i + |pat|
        ensures !MatchAt(x' + w, pat, i)
      {
        MatchAtSuffix(s, pat, |pat|, i);
      }
      calc {
        ReplaceAll(s, pat, rep);
        { ReplaceAllMatchStep(s, pat, rep); }
        rep + ReplaceAll(x' + w, pat, rep);
        { ReplaceAllConcat(x', w, pat, rep); }
        rep + (ReplaceAll(x', pat, rep) + ReplaceAll(w, pat, rep));
        { ReplaceAllMatchStep(x, pat, rep); }
        ReplaceAll(x, pat, rep) + ReplaceAll(w, pat, rep);
      }
    } else {
      var x' := x[1..];
      assert s[1..] == x' + w;
      forall i: nat | i < |x'| < i + |pat|
        ensures !MatchAt(x' + w, pat, i)
      {
        MatchAtSuffix(s, pat, 1, i);
      }
      assert !MatchAt(x, pat, 0) by {
        if |pat| <= |x| {
          assert x[..|pat|] == s[..|pat|];
        }
      }
      calc {
        ReplaceAll(s, pat, rep);
        { ReplaceAllStep(s, pat, rep); }
        [x[0]] + ReplaceAll(x' + w, pat, rep);
        { ReplaceAllConcat(x', w, pat, rep); }
        [x[0]] + (ReplaceAll(x', pat, rep) + ReplaceAll(w, pat, rep));
        { ReplaceAllStep(x, pat, rep); }
        ReplaceAll(x, pat, rep) + ReplaceAll(w, pat, rep);
      }
    }
  }

  /** Left-to-right scanning: when the first occurrence of `pat` in `a + pat + b`
      is the one after `a`, that occurrence is replaced and `a` is kept. */
  lemma ReplaceAllLeftmost(a: string, b: string, pat: string, rep: string)
    requires |pat| > 0
    requires forall i: nat :: i < |a| ==> !MatchAt(a + pat + b, pat, i)
    ensures ReplaceAll(a + pat + b, pat, rep) == a + rep + ReplaceAll(b, pat, rep)
  {
    assert a + pat + b == a + (pat + b);
    ReplaceAllConcat(a, pat + b, pat, rep);
    forall i: nat ensures !MatchAt(a, pat, i) {
      if MatchAt(a, pat, i) {
        assert MatchAt(a + pat + b, pat, i);
      }
    }
    ReplaceAllAbsent(a, pat, rep);
    assert (pat + b)[..|pat|] == pat;
    assert (pat + b)[|pat|..] == b;
  }

  /** A string that is exactly the pattern becomes exactly the replacement. */
  lemma ReplaceAllWhole(p: string, rep: string)
    requires |p| > 0
    ensures ReplaceAll(p, p, rep) == rep
  {
    assert p[..|p|] == p && p[|p|..] == [];
    assert ReplaceAll(p, p, rep) == rep + ReplaceAll([], p, rep);
  }

  /** A placeholder such as `{12}`: braces at both ends and none inside. */
  predicate IsPlaceholder(p: string) {
    |p| >= 2 && p[0] == '{' && p[|p| - 1] == '}' &&
    forall m :: 0 < m < |p| - 1 ==> p[m] != '{' && p[m] != '}'
  }

  /** The placeholder `{i}`. */
  function Placeholder(i: nat): (p: string)
    ensures IsPlaceholder(p)
  {
    "{" + NatToDecimal(i) + "}"
  }

  lemma PlaceholderInjective(i: nat, k: nat)
    ensures Placeholder(i) == Placeholder(k) <==> i == k
  {
    var p, q := Placeholder(i), Placeholder(k);
    if p == q {
      assert p[1..|p| - 1] == NatToDecimal(i);
      assert q[1..|q| - 1] == NatToDecimal(k);
      NatToDecimalInjective(i, k);
    }
  }

  /** A placeholder never occurs inside a different placeholder nor across its
      left edge (it would need a brace in its interior). */
  lemma PlaceholderNoMatchInside(q: string, y: string, pat: string, i: nat)
    requires IsPlaceholder(pat) && IsPlaceholder(q) && pat != q
    requires i < |q|
    ensures !MatchAt(q + y, pat, i)
  {
    var s := q + y;
    if i + |pat| <= |s| {
      var w := s[i..i + |pat|];
      if i == 0 && |pat| < |q| {
        assert w[|pat| - 1] == q[|pat| - 1] != '}';
      } else if i == 0 && |pat| == |q| {
        assert w == q;
      } else if i == 0 {
        assert w[|q| - 1] == q[|q| - 1] == '}';
        assert pat[|q| - 1] != '}';
      } else {
        assert w[0] == q[i] != '{';
      }
    }
  }

  /** No placeholder occurrence can run into a '{' that starts later text. */
  lemma PlaceholderNoMatchAcross(x: string, rest: string, pat: string, i: nat)
    requires IsPlaceholder(pat) && |rest| > 0 && rest[0] == '{'
    requires i < |x| < i + |pat|
    ensures !MatchAt(x + rest, pat, i)
  {
    var s := x + rest;
    if i + |pat| <= |s| {
      var w := s[i..i + |pat|];
      assert w[|x| - i] == s[|x|] == '{';
      assert pat[|x| - i] != '{';
    }
  }

  lemma PlaceholderNotInOther(q: string, pat: string)
    requires IsPlaceholder(pat) && IsPlaceholder(q) && pat != q
    ensures !Contains(q, pat)
  {
    forall i: nat ensures !MatchAt(q, pat, i) {
      if i < |q| {
        assert q + [] == q;
        PlaceholderNoMatchInside(q, [], pat, i);
      }
    }
  }

  /** Scanning never stops inside a placeholder that is not the pattern. */
  lemma ReplaceAllSkipsPlaceholder(q: string, y: string, pat: string, rep: string)
    requires IsPlaceholder(pat) && IsPlaceholder(q) && pat != q
    ensures ReplaceAll(q + y, pat, rep) == q + ReplaceAll(y, pat, rep)
  {
    forall i: nat | i < |q| < i + |pat|
      ensures !MatchAt(q + y, pat, i)
    {
      PlaceholderNoMatchInside(q, y, pat, i);
    }
    ReplaceAllConcat(q, y, pat, rep);
    PlaceholderNotInOther(q, pat);
    ReplaceAllAbsent(q, pat, rep);
  }

  /** Replacing one placeholder leaves every occurrence of a different
      placeholder in place, and the text around it is rewritten part by part. */
  lemma ReplaceAllKeepsPlaceholder(x: string, q: string, y: string, pat: string, rep: string)
    requires IsPlaceholder(pat) && IsPlaceholder(q) && pat != q
    ensures ReplaceAll(x + q + y, pat, rep)
            == ReplaceAll(x, pat, rep) + q + ReplaceAll(y, pat, rep)
  {
    var w := q + y;
    forall i: nat | i < |x| < i + |pat|
      ensures !MatchAt(x + w, pat, i)
    {
      PlaceholderNoMatchAcross(x, w, pat, i);
    }
    calc {
      ReplaceAll(x + q + y, pat, rep);
      { assert x + q + y == x + w; }
      ReplaceAll(x + w, pat, rep);
      { ReplaceAllConcat(x, w, pat, rep); }
      ReplaceAll(x, pat, rep) + ReplaceAll(w, pat, rep);
      { ReplaceAllSkipsPlaceholder(q, y, pat, rep); }
      ReplaceAll(x, pat, rep) + (q + ReplaceAll(y, pat, rep));
    }
  }

  lemma ReplaceAllKeepsContains(s: string, q: string, pat: string, rep: string)
    requires IsPlaceholder(pat) && IsPlaceholder(q) && pat != q
    requires Contains(s, q)
    ensures Contains(ReplaceAll(s, pat, rep), q)
  {
    var j: nat :| MatchAt(s, q, j);
    var x, y := s[..j], s[j + |q|..];
    assert s == x + q + y;
    ReplaceAllKeepsPlaceholder(x, q, y, pat, rep);
    var x' := ReplaceAll(x, pat, rep);
    assert MatchAt(ReplaceAll(s, pat, rep), q, |x'|) by {
      assert (x' + q + ReplaceAll(y, pat, rep))[|x'|..|x'| + |q|] == q;
    }
  }

  predicate NoOpenBrace(s: string) {
    forall i :: 0 <= i < |s| ==> s[i] != '{'
  }

  /** Text without '{' holds no placeholder, so replacing one leaves it alone. */
  lemma ReplaceAllNoOpenBrace(s: string, pat: string, rep: string)
    requires IsPlaceholder(pat) && NoOpenBrace(s)
    ensures ReplaceAll(s, pat, rep) == s
  {
    forall i: nat ensures !MatchAt(s, pat, i) {
      if i + |pat| <= |s| {
        assert s[i..i + |pat|][0] == s[i];
      }
    }
    ReplaceAllAbsent(s, pat, rep);
  }

  /** Scanning passes over brace-free text: no placeholder can start in it. */
  lemma ReplaceAllSkipText(x: string, y: string, pat: string, rep: string)
    requires IsPlaceholder(pat) && NoOpenBrace(x)
    ensures ReplaceAll(x + y, pat, rep) == x + ReplaceAll(y, pat, rep)
  {
    forall i: nat | i < |x| < i + |pat| ensures !MatchAt(x + y, pat, i) {
      var s := x + y;
      if i + |pat| <= |s| {
        assert s[i..i + |pat|][0] == x[i];
      }
    }
    ReplaceAllConcat(x, y, pat, rep);
    ReplaceAllNoOpenBrace(x, pat, rep);
  }

  /** A string that starts with the pattern: that occurrence is replaced. */
  lemma ReplaceAllPrefix(y: string, pat: string, rep: string)
    requires |pat| > 0
    ensures ReplaceAll(pat + y, pat, rep) == rep + ReplaceAll(y, pat, rep)
  {
    var s := pat + y;
    assert s[..|pat|] == pat && s[|pat|..] == y;
  }
}
