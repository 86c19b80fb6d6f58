/** Literal text search and global literal replacement over strings.

    `ReplaceAll(s, p, v)` is the behaviour of `s.replace(/p/g, v)` for a regular
    expression that consists of the literal `p` only: the input is scanned left to
    right, matches do not overlap, and text that has been inserted is never scanned
    again. */
module Text {

  /** `s` begins with `p`. */
  predicate StartsWith(s: string, p: string) {
    |p| <= |s| && s[..|p|] == p
  }

  /** `p` occurs in `s` at index `i`. */
  predicate OccursAt(s: string, p: string, i: int) {
    0 <= i && i + |p| <= |s| && s[i..i + |p|] == p
  }

  /** `p` occurs somewhere in `s`. */
  predicate Contains(s: string, p: string) {
    exists i | 0 <= i <= |s| - |p| :: OccursAt(s, p, i)
  }

  /** Replace every occurrence of the non-empty literal `p` in `s` by `v`. */
  function ReplaceAll(s: string, p: string, v: string): string
    requires |p| > 0
    decreases |s|
  {
    if StartsWith(s, p) then v + ReplaceAll(s[|p|..], p, v)
    else if |s| == 0 then ""
    else [s[0]] + ReplaceAll(s[1..], p, v)
  }

  // ---------------------------------------------------------------------------
  // Occurrences in concatenations

  /** A pattern with a character the text lacks does not occur in it. */
  lemma NotContainsMissingChar(s: string, p: string, c: char)
    requires c in p && c !in s
    ensures !Contains(s, p)
  {
    var k :| 0 <= k < |p| && p[k] == c;
    forall i | 0 <= i <= |s| - |p| ensures !OccursAt(s, p, i) {
      assert s[i..i + |p|][k] == s[i + k] && s[i + k] in s;
    }
  }

  /** An occurrence inside `b` of `a + b` is an occurrence in `b`. */
  lemma OccursAtShift(a: string, b: string, p: string, i: int)
    requires OccursAt(a + b, p, i) && i >= |a|
    ensures OccursAt(b, p, i - |a|)
  {
    assert (a + b)[i..i + |p|] == b[i - |a|..i - |a| + |p|];
  }

  /** An occurrence in `b` is an occurrence in `a + b`, shifted by `|a|`. */
  lemma OccursAtExtend(a: string, b: string, p: string, i: int)
    requires OccursAt(b, p, i)
    ensures OccursAt(a + b, p, i + |a|)
  {
    assert (a + b)[i + |a|..i + |a| + |p|] == b[i..i + |p|];
  }

  /** A prefix `a` none of whose characters can start `p`, followed by a text
      without `p`, gives a text without `p`. */
  lemma NotContainsAfterPrefix(a: string, b: string, p: string)
    requires |p| > 0 && p[0] !in a
    requires !Contains(b, p)
    ensures !Contains(a + b, p)
  {
    forall i | OccursAt(a + b, p, i)
      ensures false
    {
      if i >= |a| {
        OccursAtShift(a, b, p, i);
      }
    }
  }

  /** One character that does not start `p` in front of a text without `p`
      gives a text without `p`. */
  lemma NotContainsAfterChar(c: char, b: string, p: string)
    requires !StartsWith([c] + b, p)
    requires !Contains(b, p)
    ensures !Contains([c] + b, p)
  {
    forall i | OccursAt([c] + b, p, i)
      ensures false
    {
      if i > 0 {
        OccursAtShift([c], b, p, i);
      }
    }
  }

  /** An occurrence in `a + b + c` lies inside `a`, inside `c`, or overlaps `b`. */
  lemma OccursInThree(a: string, b: string, c: string, p: string, i: int)
    requires |p| > 0 && OccursAt(a + b + c, p, i)
    ensures || OccursAt(a, p, i)
            || OccursAt(c, p, i - |a| - |b|)
            || (i < |a| + |b| && |a| < i + |p|)
  {
    var s := a + b + c;
    if i + |p| <= |a| {
      assert s[i..i + |p|] == a[i..i + |p|];
    } else if i >= |a| + |b| {
      assert s == (a + b) + c;
      OccursAtShift(a + b, c, p, i);
    }
  }

  /** A text without `p` has a tail without `p`. */
  lemma NotContainsTail(s: string, p: string, k: nat)
    requires k <= |s|
    requires !Contains(s, p)
    ensures !Contains(s[k..], p)
  {
    forall i | OccursAt(s[k..], p, i)
      ensures false
    {
      assert s == s[..k] + s[k..];
      OccursAtExtend(s[..k], s[k..], p, i);
    }
  }

  // ---------------------------------------------------------------------------
  // Properties of ReplaceAll

  /** A text in which `p` does not occur is returned unchanged. */
  lemma {:induction false} ReplaceAllNoOccurrence(s: string, p: string, v: string)
    requires |p| > 0
    requires !Contains(s, p)
    ensures ReplaceAll(s, p, v) == s
    decreases |s|
  {
    assert !OccursAt(s, p, 0);
    if |s| > 0 {
      NotContainsTail(s, p, 1);
      ReplaceAllNoOccurrence(s[1..], p, v);
      assert s == [s[0]] + s[1..];
    }
  }

  /** Replacing `p` by itself changes nothing, whatever the text. */
  lemma {:induction false} ReplaceAllBySelf(s: string, p: string)
    requires |p| > 0
    ensures ReplaceAll(s, p, p) == s
    decreases |s|
  {
    if StartsWith(s, p) {
      ReplaceAllBySelf(s[|p|..], p);
      assert s == s[..|p|] + s[|p|..];
    } else if |s| > 0 {
      ReplaceAllBySelf(s[1..], p);
      assert s == [s[0]] + s[1..];
    }
  }

  /** How replacement changes the length: never in the wrong direction, and
      strictly as soon as one occurrence exists and the lengths differ. */
  lemma {:induction false} ReplaceAllLength(s: string, p: string, v: string)
    requires |p| > 0
    ensures |v| <= |p| ==> |ReplaceAll(s, p, v)| <= |s|
    ensures |v| >= |p| ==> |ReplaceAll(s, p, v)| >= |s|
    ensures Contains(s, p) && |v| < |p| ==> |ReplaceAll(s, p, v)| < |s|
    ensures Contains(s, p) && |v| > |p| ==> |ReplaceAll(s, p, v)| > |s|
    decreases |s|
  {
    if StartsWith(s, p) {
      ReplaceAllLength(s[|p|..], p, v);
    } else if |s| > 0 {
      ReplaceAllLength(s[1..], p, v);
      if Contains(s, p) {
        var i :| OccursAt(s, p, i);
        assert i != 0 by {
          if |p| <= |s| {
            assert s[0..|p|] == s[..|p|];
          }
        }
        assert s == [s[0]] + s[1..];
        OccursAtShift([s[0]], s[1..], p, i);
      }
    }
  }

  /** When `v` and `p` differ in length, the text is returned unchanged exactly
      when `p` does not occur in it. */
  lemma ReplaceAllUnchangedIff(s: string, p: string, v: string)
    requires |p| > 0 && |v| != |p|
    ensures ReplaceAll(s, p, v) == s <==> !Contains(s, p)
  {
    ReplaceAllLength(s, p, v);
    if !Contains(s, p) {
      ReplaceAllNoOccurrence(s, p, v);
    }
  }

  /** If the result of a replacement starts with `w`, and the inserted value
      cannot start any suffix of `w`, then the original text already started
      with `w`: a prefix made of such characters was copied, not inserted. */
  lemma {:induction false} StartsWithAfterReplace(u: string, p: string, v: string, w: string)
    requires |p| > 0 && |v| > 0 && v[0] !in w
    ensures StartsWith(ReplaceAll(u, p, v), w) ==> StartsWith(u, w)
    decreases |u|
  {
    var r := ReplaceAll(u, p, v);
    if StartsWith(r, w) && |w| > 0 {
      if !StartsWith(u, p) && |u| > 0 {
        var w' := w[1..];
        assert w == [w[0]] + w';
        assert r == [u[0]] + ReplaceAll(u[1..], p, v);
        assert r[..|w|] == [r[0]] + ReplaceAll(u[1..], p, v)[..|w'|];
        assert StartsWith(ReplaceAll(u[1..], p, v), w');
        StartsWithAfterReplace(u[1..], p, v, w');
        assert u[..|w|] == [u[0]] + u[1..][..|w'|];
      }
    }
  }

  /** Every occurrence of `p` is replaced, provided the inserted value cannot
      complete a new one: it contains no first character of `p` and does not
      begin with any character of `p`. */
  lemma {:induction false} ReplaceAllRemovesAll(s: string, p: string, v: string)
    requires |p| > 0 && |v| > 0
    requires p[0] !in v && v[0] !in p
    ensures !Contains(ReplaceAll(s, p, v), p)
    decreases |s|
  {
    if StartsWith(s, p) {
      ReplaceAllRemovesAll(s[|p|..], p, v);
      NotContainsAfterPrefix(v, ReplaceAll(s[|p|..], p, v), p);
    } else if |s| > 0 {
      ReplaceAllRemovesAll(s[1..], p, v);
      StartsWithAfterReplace(s, p, v, p);
      NotContainsAfterChar(s[0], ReplaceAll(s[1..], p, v), p);
    }
  }

  /** Replacing `p` does not create an occurrence of another pattern `m` that
      the text did not contain, under the same condition on the value. */
  lemma {:induction false} ReplaceAllKeepsAbsent(s: string, p: string, v: string, m: string)
    requires |p| > 0 && |m| > 0 && |v| > 0
    requires m[0] !in v && v[0] !in m
    requires !Contains(s, m)
    ensures !Contains(ReplaceAll(s, p, v), m)
    decreases |s|
  {
    if StartsWith(s, p) {
      NotContainsTail(s, m, |p|);
      ReplaceAllKeepsAbsent(s[|p|..], p, v, m);
      NotContainsAfterPrefix(v, ReplaceAll(s[|p|..], p, v), m);
    } else if |s| > 0 {
      NotContainsTail(s, m, 1);
      ReplaceAllKeepsAbsent(s[1..], p, v, m);
      StartsWithAfterReplace(s, p, v, m);
      assert !OccursAt(s, m, 0);
      NotContainsAfterChar(s[0], ReplaceAll(s[1..], p, v), m);
    }
  }

  /** When no occurrence of `p` starts before index `k`, the first `k`
      characters are copied unchanged. */
  lemma {:induction false} ReplaceAllCopiesPrefix(s: string, p: string, v: string, k: nat)
    requires |p| > 0 && k <= |s|
    requires forall j :: 0 <= j < k ==> !OccursAt(s, p, j)
    ensures ReplaceAll(s, p, v) == s[..k] + ReplaceAll(s[k..], p, v)
    decreases k
  {
    if k > 0 {
      assert !OccursAt(s, p, 0);
      var t := s[1..];
      forall j | 0 <= j < k - 1
        ensures !OccursAt(t, p, j)
      {
        if OccursAt(t, p, j) {
          assert s == [s[0]] + t;
          OccursAtExtend([s[0]], t, p, j);
        }
      }
      ReplaceAllCopiesPrefix(t, p, v, k - 1);
      assert t[k - 1..] == s[k..];
      assert s[..k] == [s[0]] + t[..k - 1];
    }
  }

  /** If no occurrence of `p` straddles index `i`, the scan passes through `i`:
      the result is some text `w` followed by the result for `s[i..]`. */
  lemma {:induction false} ReplaceAllReaches(s: string, p: string, v: string, i: nat) returns (w: string)
    requires |p| > 0 && i <= |s|
    requires forall j :: 0 <= j < i && OccursAt(s, p, j) ==> j + |p| <= i
    ensures ReplaceAll(s, p, v) == w + ReplaceAll(s[i..], p, v)
    decreases i
  {
    if i == 0 {
      w := "";
      assert s[0..] == s;
    } else if StartsWith(s, p) {
      var t := s[|p|..];
      ReachesAfterMatch(s, p, i);
      var w' := ReplaceAllReaches(t, p, v, i - |p|);
      assert t[i - |p|..] == s[i..];
      w := v + w';
    } else {
      var t := s[1..];
      forall j | 0 <= j < i - 1 && OccursAt(t, p, j)
        ensures j + |p| <= i - 1
      {
        assert s == [s[0]] + t;
        OccursAtExtend([s[0]], t, p, j);
      }
      var w' := ReplaceAllReaches(t, p, v, i - 1);
      assert t[i - 1..] == s[i..];
      w := [s[0]] + w';
    }
  }

  /** The condition of `ReplaceAllReaches` carries over past a match at the start. */
  lemma ReachesAfterMatch(s: string, p: string, i: nat)
    requires |p| > 0 && i <= |s| && StartsWith(s, p) && 0 < i
    requires forall j :: 0 <= j < i && OccursAt(s, p, j) ==> j + |p| <= i
    ensures |p| <= i
    ensures forall j :: 0 <= j < i - |p| && OccursAt(s[|p|..], p, j) ==> j + |p| <= i - |p|
  {
    assert OccursAt(s, p, 0);
    var t := s[|p|..];
    forall j | 0 <= j < i - |p| && OccursAt(t, p, j)
      ensures j + |p| <= i - |p|
    {
      assert s == s[..|p|] + t;
      OccursAtExtend(s[..|p|], t, p, j);
    }
  }

  /** An occurrence of `m` that no occurrence of `p` overlaps survives the
      replacement of `p`. */
  lemma ReplaceAllKeepsOccurrence(s: string, p: string, v: string, m: string, i: nat)
    requires |p| > 0 && OccursAt(s, m, i)
    requires forall j :: OccursAt(s, p, j) ==> j + |p| <= i || i + |m| <= j
    ensures Contains(ReplaceAll(s, p, v), m)
  {
    var w := ReplaceAllReaches(s, p, v, i);
    var t := s[i..];
    forall j | 0 <= j < |m|
      ensures !OccursAt(t, p, j)
    {
      if OccursAt(t, p, j) {
        assert s == s[..i] + t;
        OccursAtExtend(s[..i], t, p, j);
      }
    }
    ReplaceAllCopiesPrefix(t, p, v, |m|);
    assert t[..|m|] == m;
    var r := ReplaceAll(s, p, v);
    assert r == (w + m) + ReplaceAll(t[|m|..], p, v);
    assert OccursAt(r, m, |w|);
  }
}
