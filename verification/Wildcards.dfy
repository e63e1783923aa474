/** Wildcard patterns: what a pattern with stars means (RegEx.java, simpleMatch). */
module Wildcards {
  import opened Texts

  const STAR: Unit := 0x2A

  /** The star stands for any text, every other character for itself. */
  ghost predicate Glob(p: seq<Unit>, s: seq<Unit>)
    decreases |p|
  {
    if p == [] then s == []
    else if p[0] == 0x2A then exists k: nat :: k <= |s| && Glob(p[1..], s[k..])
    else s != [] && s[0] == p[0] && Glob(p[1..], s[1..])
  }

  function Stars(p: seq<Unit>): nat {
    if p == [] then 0 else (if p[0] == 0x2A then 1 else 0) + Stars(p[1..])
  }

  /** The pattern with its stars replaced by texts, from left to right. */
  function Fill(p: seq<Unit>, texts: seq<seq<Unit>>): seq<Unit>
    requires |texts| == Stars(p)
    decreases |p|
  {
    if p == [] then []
    else if p[0] == 0x2A then texts[0] + Fill(p[1..], texts[1..])
    else [p[0]] + Fill(p[1..], texts)
  }

  /** A text matches exactly when some replacement of each star turns the pattern into it. */
  lemma GlobIsFill(p: seq<Unit>, s: seq<Unit>)
    ensures Glob(p, s) <==> exists texts: seq<seq<Unit>> :: |texts| == Stars(p) && Fill(p, texts) == s
  {
    if Glob(p, s) {
      var texts := FillOf(p, s);
    }
    if texts: seq<seq<Unit>> :| |texts| == Stars(p) && Fill(p, texts) == s {
      FilledMatches(p, texts);
    }
  }

  lemma {:induction false} FillOf(p: seq<Unit>, s: seq<Unit>) returns (texts: seq<seq<Unit>>)
    requires Glob(p, s)
    ensures |texts| == Stars(p) && Fill(p, texts) == s
    decreases |p|
  {
    if p == [] {
      texts := [];
    } else if p[0] == STAR {
      var k: nat :| k <= |s| && Glob(p[1..], s[k..]);
      var rest := FillOf(p[1..], s[k..]);
      texts := [s[..k]] + rest;
      assert texts[1..] == rest;
      assert s == s[..k] + s[k..];
    } else {
      texts := FillOf(p[1..], s[1..]);
      assert s == [s[0]] + s[1..];
    }
  }

  lemma {:induction false} FilledMatches(p: seq<Unit>, texts: seq<seq<Unit>>)
    requires |texts| == Stars(p)
    ensures Glob(p, Fill(p, texts))
    decreases |p|
  {
    if p != [] {
      var s := Fill(p, texts);
      if p[0] == STAR {
        FilledMatches(p[1..], texts[1..]);
        assert s[|texts[0]|..] == Fill(p[1..], texts[1..]);
      } else {
        FilledMatches(p[1..], texts);
        assert s[1..] == Fill(p[1..], texts);
      }
    }
  }

  /** Characters without a star match only themselves. */
  lemma {:induction false} GlobPlain(a: seq<Unit>, q: seq<Unit>, s: seq<Unit>)
    requires STAR !in a
    ensures Glob(a + q, s) <==> |s| >= |a| && s[..|a|] == a && Glob(q, s[|a|..])
    decreases |a|
  {
    if a == [] {
      assert a + q == q && s[0..] == s;
    } else {
      assert (a + q)[1..] == a[1..] + q;
      if s != [] {
        GlobPlain(a[1..], q, s[1..]);
        if |s| >= |a| {
          assert s[1..][|a| - 1..] == s[|a|..];
          assert s[..|a|] == [s[0]] + s[1..][..|a| - 1] && a == [a[0]] + a[1..];
        }
      }
    }
  }

  /** A star and the characters up to the n-th: some occurrence of them, and the rest after it. */
  lemma GlobOccurrence(p: seq<Unit>, n: nat, s: seq<Unit>, k: nat)
    requires 1 <= n <= |p| && p[0] == STAR && STAR !in p[1..n]
    requires OccursAt(s, p[1..n], k) && Glob(p[n..], s[k + (n - 1)..])
    ensures Glob(p, s)
  {
    var a := p[1..n];
    assert p[1..] == a + p[n..];
    assert s[k..][..|a|] == a && s[k..][|a|..] == s[k + |a|..];
    GlobPlain(a, p[n..], s[k..]);
    assert Glob(p[1..], s[k..]);
  }

  lemma OccurrenceOf(p: seq<Unit>, n: nat, s: seq<Unit>) returns (k: nat)
    requires 1 <= n <= |p| && p[0] == STAR && STAR !in p[1..n] && Glob(p, s)
    ensures OccursAt(s, p[1..n], k) && Glob(p[n..], s[k + (n - 1)..])
  {
    var a := p[1..n];
    assert p[1..] == a + p[n..];
    k :| k <= |s| && Glob(p[1..], s[k..]);
    GlobPlain(a, p[n..], s[k..]);
    assert s[k..][..|a|] == s[k..k + |a|] && s[k..][|a|..] == s[k + |a|..];
  }

  predicate OccursAt(s: seq<Unit>, part: seq<Unit>, k: nat) {
    k + |part| <= |s| && s[k..k + |part|] == part
  }

  /** A pattern that begins with a star matches more when there is more in front. */
  lemma GlobStarMore(q: seq<Unit>, s: seq<Unit>, j: nat)
    requires q != [] && q[0] == STAR && j <= |s| && Glob(q, s[j..])
    ensures Glob(q, s)
  {
    var k: nat :| k <= |s[j..]| && Glob(q[1..], s[j..][k..]);
    assert s[j..][k..] == s[j + k..];
  }

  // ----- Two stars in a row

  predicate PairAt(p: seq<Unit>, i: nat) {
    i + 1 < |p| && p[i] == STAR && p[i + 1] == STAR
  }

  ghost predicate FirstPair(p: seq<Unit>, i: nat) {
    PairAt(p, i) && forall j: nat :: j < i ==> !PairAt(p, j)
  }

  /** What comes before the second of the first two adjacent stars matches, so that the search gets
      as far as the pair. */
  ghost predicate ReachesPair(p: seq<Unit>, s: seq<Unit>) {
    exists i: nat :: FirstPair(p, i) && Glob(p[..i + 1], s)
  }

  datatype Outcome = Yes | No | Diverges

  /** What `simpleMatch` comes to. */
  ghost function Expected(p: seq<Unit>, s: seq<Unit>): Outcome {
    if Glob(p, s) then Yes else if ReachesPair(p, s) then Diverges else No
  }

  /** The part of a pattern from its first star on, when there is something before it. */
  lemma PrefixExpected(p: seq<Unit>, f: nat, s: seq<Unit>)
    requires 1 <= f < |p| && p[f] == STAR && STAR !in p[..f]
    ensures Expected(p, s) == if |s| >= f && p[..f] == s[..f] then Expected(p[f..], s[f..]) else No
  {
    var q := p[f..];
    assert p == p[..f] + q;
    GlobPlain(p[..f], q, s);
    PairsShift(p, f);
    if i: nat :| FirstPair(p, i) && Glob(p[..i + 1], s) {
      CutPrefix(p, f, s, i - f);
      assert FirstPair(q, i - f);
    }
    if |s| >= f && p[..f] == s[..f] {
      if i: nat :| FirstPair(q, i) && Glob(q[..i + 1], s[f..]) {
        CutPrefix(p, f, s, i);
        assert FirstPair(p, f + i);
      }
    }
  }

  lemma CutPrefix(p: seq<Unit>, f: nat, s: seq<Unit>, i: nat)
    requires f + i + 1 <= |p| && STAR !in p[..f]
    ensures Glob(p[..f + i + 1], s) <==> |s| >= f && p[..f] == s[..f] && Glob(p[f..][..i + 1], s[f..])
  {
    assert p[..f + i + 1] == p[..f] + p[f..][..i + 1];
    GlobPlain(p[..f], p[f..][..i + 1], s);
  }

  /** With no star before position f, the first pair of the pattern is the first pair from there. */
  lemma PairsShift(p: seq<Unit>, f: nat)
    requires f <= |p| && STAR !in p[..f]
    ensures forall i: nat :: FirstPair(p, i) ==> i >= f && FirstPair(p[f..], i - f)
    ensures forall i: nat :: FirstPair(p[f..], i) ==> FirstPair(p, f + i)
  {
    NoStar(p, f);
    forall i: nat | FirstPair(p, i)
      ensures i >= f && FirstPair(p[f..], i - f)
    {
      forall j: nat | j < i - f
        ensures !PairAt(p[f..], j)
      {
        assert !PairAt(p, f + j);
      }
    }
    forall i: nat | FirstPair(p[f..], i)
      ensures FirstPair(p, f + i)
    {
      forall j: nat | j < f + i
        ensures !PairAt(p, j)
      {
        if j >= f {
          assert !PairAt(p[f..], j - f);
        }
      }
    }
  }

  lemma NoStar(p: seq<Unit>, f: nat)
    requires f <= |p| && STAR !in p[..f]
    ensures forall i :: 0 <= i < f ==> p[i] != STAR
  {
    forall i | 0 <= i < f
      ensures p[i] != STAR
    {
      assert p[..f][i] in p[..f];
    }
  }
}
