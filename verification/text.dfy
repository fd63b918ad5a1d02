/** Substring search and Python's `str.replace(old, new)`: a left-to-right scan
    that replaces every non-overlapping occurrence of `old`. */
module Text {

  /** `pat` occurs in `s` starting at position `i`. */
  predicate MatchAt(s: string, pat: string, i: int)
  {
    0 <= i && i + |pat| <= |s| && s[i..i + |pat|] == pat
  }

  /** Python's substring test `pat in s`. */
  predicate Occurs(s: string, pat: string)
  {
    exists i :: 0 <= i <= |s| - |pat| && MatchAt(s, pat, i)
  }

  /** Python's `s.replace(pat, rep)` for a non-empty `pat`. */
  function ReplaceAll(s: string, pat: string, rep: string): (r: string)
    requires |pat| > 0
    ensures |pat| == |rep| ==> |r| == |s|
    decreases |s|
  {
    if |s| < |pat| then s
    else if s[..|pat|] == pat then rep + ReplaceAll(s[|pat|..], pat, rep)
    else [s[0]] + ReplaceAll(s[1..], pat, rep)
  }

  /** `pat` and `rep` have the same length and differ only in their first
      character, and neither first character appears in the shared tail.  Each
      replacement of the document repair (`'` by `"`, `True` by `true`, `False` by
      `false`) has this shape, and for such a pair the occurrences of `pat` can
      never overlap. */
  predicate HeadSwap(pat: string, rep: string)
  {
    && |pat| > 0
    && |rep| == |pat|
    && pat[0] != rep[0]
    && pat[1..] == rep[1..]
    && pat[0] !in pat[1..]
    && rep[0] !in pat[1..]
  }

  /** Matching is unaffected by dropping a prefix of `d` characters. */
  lemma MatchAtShift(s: string, d: nat, pat: string, k: int)
    requires d <= |s| && d <= k
    ensures MatchAt(s, pat, k) <==> MatchAt(s[d..], pat, k - d)
  {
    if k + |pat| <= |s| {
      assert s[k..k + |pat|] == s[d..][k - d..k - d + |pat|];
    }
  }

  /** An occurrence starts with the pattern's first character. */
  lemma MatchAtHead(s: string, pat: string, k: int)
    requires |pat| > 0 && MatchAt(s, pat, k)
    ensures s[k] == pat[0]
  {
    assert s[k..k + |pat|][0] == s[k];
  }

  /** Two texts of the same length that differ only at characters outside `q`
      hold `q` at the same positions. */
  lemma MatchAtAgree(s: string, t: string, q: string, i: int)
    requires |s| == |t|
    requires forall k :: 0 <= k < |s| ==> s[k] == t[k] || (s[k] !in q && t[k] !in q)
    ensures MatchAt(s, q, i) <==> MatchAt(t, q, i)
  {
    if 0 <= i && i + |q| <= |s| {
      if MatchAt(s, q, i) || MatchAt(t, q, i) {
        forall k | i <= k < i + |q|
          ensures s[k] == t[k]
        {
          assert s[i..i + |q|][k - i] == s[k] && t[i..i + |q|][k - i] == t[k];
          assert q[k - i] in q;
        }
        assert s[i..i + |q|] == t[i..i + |q|];
      }
    }
  }

  /** Inside an occurrence of a head-swapping `pat` no other occurrence starts,
      and the characters after the first already agree with `rep`. */
  lemma InsideMatch(s: string, pat: string, rep: string, k: int)
    requires HeadSwap(pat, rep)
    requires MatchAt(s, pat, 0)
    requires 0 < k < |pat|
    ensures !MatchAt(s, pat, k)
    ensures s[k] == rep[k]
  {
    assert s[k] == s[0..|pat|][k] == pat[k] == pat[1..][k - 1];
    assert rep[k] == rep[1..][k - 1];
    if k + |pat| <= |s| {
      assert s[k..k + |pat|][0] == s[k];
    }
  }

  /** For a head-swapping pair the greedy scan finds every occurrence, so the
      result differs from the input exactly at the positions where an occurrence
      of `pat` starts, and there it holds the first character of `rep`. */
  lemma {:induction false} ReplaceAllPointwise(s: string, pat: string, rep: string)
    requires HeadSwap(pat, rep)
    ensures |ReplaceAll(s, pat, rep)| == |s|
    ensures forall k :: 0 <= k < |s| ==>
              ReplaceAll(s, pat, rep)[k] == if MatchAt(s, pat, k) then rep[0] else s[k]
    decreases |s|
  {
    var r := ReplaceAll(s, pat, rep);
    var n := |pat|;
    if |s| < n {
    } else if s[..n] == pat {
      var t := s[n..];
      ReplaceAllPointwise(t, pat, rep);
      var rt := ReplaceAll(t, pat, rep);
      assert r == rep + rt;
      assert MatchAt(s, pat, 0) by {
        assert s[0..n] == s[..n];
      }
      forall k | 0 <= k < |s|
        ensures r[k] == if MatchAt(s, pat, k) then rep[0] else s[k]
      {
        if 0 < k < n {
          InsideMatch(s, pat, rep, k);
        } else if n <= k {
          MatchAtShift(s, n, pat, k);
        }
      }
    } else {
      var t := s[1..];
      ReplaceAllPointwise(t, pat, rep);
      var rt := ReplaceAll(t, pat, rep);
      assert r == [s[0]] + rt;
      assert !MatchAt(s, pat, 0) by {
        assert s[0..n] == s[..n];
      }
      forall k | 0 < k < |s|
        ensures r[k] == if MatchAt(s, pat, k) then rep[0] else s[k]
      {
        MatchAtShift(s, 1, pat, k);
      }
    }
  }

  /** A window that did not hold `q` still does not hold it after a head-swap
      replacement whose new character is not in `q`. */
  lemma KeepsAbsentAt(s: string, pat: string, rep: string, q: string, i: int)
    requires HeadSwap(pat, rep)
    requires rep[0] !in q
    requires !MatchAt(s, q, i)
    ensures !MatchAt(ReplaceAll(s, pat, rep), q, i)
  {
    var r := ReplaceAll(s, pat, rep);
    ReplaceAllPointwise(s, pat, rep);
    if 0 <= i && i + |q| <= |s| {
      var k :| i <= k < i + |q| && s[k] != q[k - i];
      assert r[k] == s[k] || r[k] == rep[0];
      assert r[i..i + |q|][k - i] == r[k];
    }
  }

  /** After replacing every `pat`, no `pat` is left. */
  lemma ReplaceAllLeavesNoMatch(s: string, pat: string, rep: string)
    requires HeadSwap(pat, rep)
    ensures !Occurs(ReplaceAll(s, pat, rep), pat)
  {
    var r := ReplaceAll(s, pat, rep);
    ReplaceAllPointwise(s, pat, rep);
    assert rep[0] !in pat by {
      assert pat == [pat[0]] + pat[1..];
    }
    forall i | 0 <= i <= |r| - |pat|
      ensures !MatchAt(r, pat, i)
    {
      if MatchAt(s, pat, i) {
        assert r[i..i + |pat|][0] == r[i] == rep[0];
      } else {
        KeepsAbsentAt(s, pat, rep, pat, i);
      }
    }
  }

  /** A head-swap replacement whose new character is not in `q` creates no
      occurrence of `q`. */
  lemma ReplaceAllKeepsAbsent(s: string, pat: string, rep: string, q: string)
    requires HeadSwap(pat, rep)
    requires rep[0] !in q
    requires !Occurs(s, q)
    ensures !Occurs(ReplaceAll(s, pat, rep), q)
  {
    var r := ReplaceAll(s, pat, rep);
    ReplaceAllPointwise(s, pat, rep);
    forall i | 0 <= i <= |r| - |q|
      ensures !MatchAt(r, q, i)
    {
      KeepsAbsentAt(s, pat, rep, q, i);
    }
  }

  /** Replacing a pattern that does not occur changes nothing. */
  lemma {:induction false} ReplaceAllWithoutMatch(s: string, pat: string, rep: string)
    requires |pat| > 0
    requires !Occurs(s, pat)
    ensures ReplaceAll(s, pat, rep) == s
    decreases |s|
  {
    if |s| >= |pat| {
      assert !MatchAt(s, pat, 0);
      assert s[0..|pat|] == s[..|pat|];
      var t := s[1..];
      forall i | 0 <= i <= |t| - |pat|
        ensures !MatchAt(t, pat, i)
      {
        assert !MatchAt(s, pat, i + 1);
        assert t[i..i + |pat|] == s[i + 1..i + 1 + |pat|];
      }
      ReplaceAllWithoutMatch(t, pat, rep);
      assert s == [s[0]] + t;
    }
  }
}
