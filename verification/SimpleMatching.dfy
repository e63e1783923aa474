/** `simpleMatch` of RegEx.java. */
module SimpleMatching {
  import opened Options
  import opened Texts
  import opened Wildcards

  /** `s.indexOf(part, from)` of java.lang.String. */
  function IndexOf(s: seq<Unit>, part: seq<Unit>, from: nat): (r: Option<nat>)
    ensures r.Some? ==> OccursAt(s, part, r.value)
    ensures r.Some? && from <= |s| ==> from <= r.value && forall k :: from <= k < r.value ==> !OccursAt(s, part, k)
    ensures r.None? ==> part != [] && forall k :: from <= k ==> !OccursAt(s, part, k)
    decreases |s| + 1 - from
  {
    if from > |s| then if part == [] then Some(|s|) else None
    else if OccursAt(s, part, from) then Some(from)
    else IndexOf(s, part, from + 1)
  }

  /** `p.indexOf('*', from)` */
  function FirstStar(p: seq<Unit>, from: nat): (r: Option<nat>)
    requires from <= |p|
    ensures r.Some? ==> from <= r.value < |p| && p[r.value] == STAR && STAR !in p[from..r.value]
    ensures r.None? ==> STAR !in p[from..]
    decreases |p| - from
  {
    if from == |p| then None
    else if p[from] == STAR then Some(from)
    else
      match FirstStar(p, from + 1)
      case None =>
        assert p[from..] == [p[from]] + p[from + 1..];
        None
      case Some(k) =>
        assert p[from..k] == [p[from]] + p[from + 1..k];
        Some(k)
  }

  lemma NoStarExpected(p: seq<Unit>, s: seq<Unit>)
    requires STAR !in p
    ensures Expected(p, s) == if p == s then Yes else No
  {
    GlobPlain(p, [], s);
    assert p + [] == p;
    NoPairs(p, 0);
    if |s| >= |p| && s[..|p|] == p && s[|p|..] == [] {
      assert s == s[..|p|];
    }
    if p == s {
      assert s[..|p|] == p && s[|p|..] == [];
    }
  }

  /** Without a star after position f + 1 there is no pair from f on. */
  lemma NoPairs(p: seq<Unit>, f: nat)
    requires f <= 1 && f <= |p| && STAR !in p[f..]
    ensures forall i: nat :: !PairAt(p, i)
  {
    forall i: nat
      ensures !PairAt(p, i)
    {
      if i + 1 < |p| {
        assert p[i + 1] == p[f..][i + 1 - f];
      }
    }
  }

  lemma OneStarExpected(p: seq<Unit>, s: seq<Unit>)
    requires p != [] && p[0] == STAR && STAR !in p[1..]
    ensures Expected(p, s) == if |s| >= |p| - 1 && s[|s| - (|p| - 1)..] == p[1..] then Yes else No
  {
    var a := p[1..];
    NoPairs(p, 1);
    assert p[1..|p|] == a && p[|p|..] == [];
    if Glob(p, s) {
      var k := OccurrenceOf(p, |p|, s);
      assert s[k + (|p| - 1)..] == [];
      assert s[k..k + |a|] == s[k..];
    }
    if |s| >= |a| && s[|s| - |a|..] == a {
      var k := |s| - |a|;
      assert s[k..k + |a|] == s[k..] && s[k + (|p| - 1)..] == [];
      GlobOccurrence(p, |p|, s, k);
    }
  }

  // ----- A star, some characters, and another star at position n.

  ghost predicate TwoStars(p: seq<Unit>, n: nat) {
    1 <= n < |p| && p[0] == STAR && p[n] == STAR && STAR !in p[1..n]
  }

  /** If the rest of the pattern does not match after one occurrence, it does not after a later one:
      no match is lost by trying the occurrences from left to right. */
  lemma LaterFails(p: seq<Unit>, n: nat, s: seq<Unit>, j: nat, k: nat)
    requires TwoStars(p, n) && j <= k && k + (n - 1) <= |s| && !Glob(p[n..], s[j + (n - 1)..])
    ensures !Glob(p[n..], s[k + (n - 1)..])
  {
    var t := s[j + (n - 1)..];
    assert t[k - j..] == s[k + (n - 1)..];
    if Glob(p[n..], t[k - j..]) {
      GlobStarMore(p[n..], t, k - j);
    }
  }

  /** The rest of the pattern did not match after the occurrences before position `until`. */
  ghost predicate TriedUpTo(p: seq<Unit>, n: nat, s: seq<Unit>, until: nat)
    requires TwoStars(p, n)
  {
    forall k: nat :: k < until && OccursAt(s, p[1..n], k) ==> Expected(p[n..], s[k + (n - 1)..]) == No
  }

  lemma DivergesInside(p: seq<Unit>, n: nat, s: seq<Unit>, k: nat)
    requires TwoStars(p, n) && TriedUpTo(p, n, s, k) && OccursAt(s, p[1..n], k)
    requires Expected(p[n..], s[k + (n - 1)..]) == Diverges
    ensures Expected(p, s) == Diverges
  {
    if Glob(p, s) {
      var j := OccurrenceOf(p, n, s);
      if j >= k {
        LaterFails(p, n, s, k, j);
      }
    }
    var i: nat :| FirstPair(p[n..], i) && Glob(p[n..][..i + 1], s[k + (n - 1)..]);
    PairReached(p, n, s, k, i);
  }

  /** The first pair of the rest is reached from the front, through an occurrence. */
  lemma PairReached(p: seq<Unit>, n: nat, s: seq<Unit>, k: nat, i: nat)
    requires TwoStars(p, n) && OccursAt(s, p[1..n], k)
    requires FirstPair(p[n..], i) && Glob(p[n..][..i + 1], s[k + (n - 1)..])
    ensures ReachesPair(p, s)
  {
    if n == 1 {
      AdjacentReached(p, s);
    } else {
      RestPairs(p, n);
      var q := p[..n + i + 1];
      assert q[1..n] == p[1..n] && q[n..] == p[n..][..i + 1];
      GlobOccurrence(q, n, s, k);
      assert FirstPair(p, n + i);
    }
  }

  lemma AdjacentReached(p: seq<Unit>, s: seq<Unit>)
    requires TwoStars(p, 1)
    ensures ReachesPair(p, s)
  {
    assert PairAt(p, 0) && FirstPair(p, 0);
    assert p[..1] == [STAR] && [STAR][1..] == [] && s[|s|..] == [];
    assert Glob([], s[|s|..]);
    assert Glob(p[..1], s);
  }

  lemma RestPairs(p: seq<Unit>, n: nat)
    requires TwoStars(p, n) && n >= 2
    ensures forall i: nat :: FirstPair(p[n..], i) ==> FirstPair(p, n + i)
    ensures forall i: nat :: FirstPair(p, i) ==> i >= n && FirstPair(p[n..], i - n)
  {
    forall j: nat | j < n
      ensures !PairAt(p, j)
    {
      if j >= 1 {
        assert p[j] == p[1..n][j - 1];
      } else {
        assert p[1] == p[1..n][0];
      }
    }
    forall i: nat | FirstPair(p[n..], i)
      ensures FirstPair(p, n + i)
    {
      forall j: nat | j < n + i
        ensures !PairAt(p, j)
      {
        if j >= n {
          assert !PairAt(p[n..], j - n);
        }
      }
    }
    forall i: nat | FirstPair(p, i)
      ensures i >= n && FirstPair(p[n..], i - n)
    {
      forall j: nat | j < i - n
        ensures !PairAt(p[n..], j)
      {
        assert !PairAt(p, n + j);
      }
    }
  }

  lemma AllTried(p: seq<Unit>, n: nat, s: seq<Unit>)
    requires TwoStars(p, n) && TriedUpTo(p, n, s, |s| + 1)
    ensures Expected(p, s) == if n == 1 then Diverges else No
  {
    if Glob(p, s) {
      var k := OccurrenceOf(p, n, s);
    }
    if n == 1 {
      AdjacentReached(p, s);
    } else if i: nat :| FirstPair(p, i) && Glob(p[..i + 1], s) {
      RestPairs(p, n);
      var q := p[..i + 1];
      assert q[1..n] == p[1..n] && q[n..] == p[n..][..i - n + 1];
      var k := OccurrenceOf(q, n, s);
      assert FirstPair(p[n..], i - n);
    }
  }

  /** `simpleMatch`, for a pattern and a text that are not null.  `Diverges` stands for a search that
      goes on for ever: the loop over an empty part comes back to the same place. */
  method SimpleMatch(pattern: seq<Unit>, str: seq<Unit>) returns (r: Outcome)
    ensures r == Expected(pattern, str)
    decreases |pattern|, 1
  {
    var firstIndex := FirstStar(pattern, 0);
    assert pattern[0..] == pattern;
    if firstIndex.None? {
      NoStarExpected(pattern, str);
      return if pattern == str then Yes else No;
    }
    var f := firstIndex.value;
    if f > 0 {
      assert pattern[0..f] == pattern[..f];
      PrefixExpected(pattern, f, str);
      if |str| >= f && pattern[..f] == str[..f] {
        r := SimpleMatch(pattern[f..], str[f..]);
        return;
      }
      return No;
    }
    if |pattern| == 1 {
      OneStarExpected(pattern, str);
      return Yes;
    }
    var nextIndex := FirstStar(pattern, 1);
    if nextIndex.None? {
      OneStarExpected(pattern, str);
      var end := pattern[1..];
      return if |str| >= |end| && str[|str| - |end|..] == end then Yes else No;
    }
    r := Occurrences(pattern, nextIndex.value, str);
  }

  /** The loop of `simpleMatch` over the occurrences of what stands between two stars. */
  method Occurrences(pattern: seq<Unit>, n: nat, str: seq<Unit>) returns (r: Outcome)
    requires TwoStars(pattern, n)
    ensures r == Expected(pattern, str)
    decreases |pattern|, 0
  {
    var part := pattern[1..n];
    var partIndex := IndexOf(str, part, 0);
    while partIndex.Some?
      invariant TriedUpTo(pattern, n, str, if partIndex.Some? then partIndex.value else |str| + 1)
      invariant if partIndex.Some? then OccursAt(str, part, partIndex.value) else n >= 2
      decreases if partIndex.Some? then |str| + 1 - partIndex.value else 0
    {
      var k := partIndex.value;
      var after := SimpleMatch(pattern[n..], str[k + |part|..]);
      if after == Yes {
        GlobOccurrence(pattern, n, str, k);
        return Yes;
      } else if after == Diverges {
        DivergesInside(pattern, n, str, k);
        return Diverges;
      }
      partIndex := IndexOf(str, part, k + 1);
      if partIndex == Some(k) {
        AllTried(pattern, n, str);
        return Diverges;
      }
    }
    AllTried(pattern, n, str);
    return No;
  }

  /** What the outcome means: yes exactly when some replacement of the stars gives the text, and for
      ever only if two stars are adjacent. */
  lemma OutcomeMeans(p: seq<Unit>, s: seq<Unit>)
    ensures Expected(p, s) == Yes <==> exists texts: seq<seq<Unit>> :: |texts| == Stars(p) && Fill(p, texts) == s
    ensures Expected(p, s) == Diverges ==> exists i: nat :: PairAt(p, i)
    ensures PairAt(p, 0) ==> Expected(p, s) != No
  {
    GlobIsFill(p, s);
    if PairAt(p, 0) {
      AdjacentReached(p, s);
    }
  }

  /** A pattern that ends in another character matches only texts that end in it. */
  lemma {:induction false} LastMatches(p: seq<Unit>, s: seq<Unit>)
    requires Glob(p, s) && p != [] && p[|p| - 1] != STAR
    ensures s != [] && s[|s| - 1] == p[|p| - 1]
    decreases |p|
  {
    if |p| > 1 && p[0] == STAR {
      var k: nat :| k <= |s| && Glob(p[1..], s[k..]);
      LastMatches(p[1..], s[k..]);
    } else if |p| > 1 {
      LastMatches(p[1..], s[1..]);
    }
  }

  /** The pattern `**a` on any text that does not end in `a`: the search never ends. */
  lemma TwoStarsDiverge(s: seq<Unit>)
    requires s == [] || s[|s| - 1] != LOWER_A
    ensures Expected([STAR, STAR, LOWER_A], s) == Diverges
  {
    var p: seq<Unit> := [STAR, STAR, LOWER_A];
    OutcomeMeans(p, s);
    if Glob(p, s) {
      LastMatches(p, s);
    }
  }

  /** The null checks of `simpleMatch`. */
  method Matches(pattern: Option<seq<Unit>>, str: Option<seq<Unit>>) returns (r: Outcome)
    ensures r == if pattern.Some? && str.Some? then Expected(pattern.value, str.value) else No
  {
    if pattern.None? || str.None? {
      return No;
    }
    r := SimpleMatch(pattern.value, str.value);
  }
}
