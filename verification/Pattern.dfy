/** The pattern automaton of the tracker: which prefix of the pattern a tracking-area history ends with,
    and which occurrences of the pattern the automaton finds. */
module Patterns {

  // ---------------------------------------------------------------- the automaton

  /** The next position: advance on the expected element, otherwise start again. */
  function Advance(pat: seq<int>, pos: nat, tac: int): nat
    requires pat != []
  {
    if pos < |pat| && tac == pat[pos] then pos + 1 else if tac == pat[0] then 1 else 0
  }

  /** The position after the whole history. */
  function PosOf(pat: seq<int>, h: seq<int>): (pos: nat)
    requires pat != []
    ensures pos <= |pat|
  {
    if h == [] then 0 else Advance(pat, PosOf(pat, h[..|h| - 1]), h[|h| - 1])
  }

  /** The last `k` elements of the history are the first `k` of the pattern. */
  predicate EndsWith(h: seq<int>, pat: seq<int>, k: nat) {
    k <= |pat| && k <= |h| && h[|h| - k..] == pat[..k]
  }

  /** The first element of the pattern occurs nowhere else in it. */
  predicate FirstOnce(pat: seq<int>) {
    forall i :: 0 < i < |pat| ==> pat[i] != pat[0]
  }

  predicate Stutterless(h: seq<int>) {
    forall i :: 0 <= i < |h| - 1 ==> h[i] != h[i + 1]
  }

  lemma NoStart(pat: seq<int>)
    requires pat != []
    ensures PosOf(pat, []) == 0
  {
  }

  lemma PosOfSnoc(pat: seq<int>, h: seq<int>, t: int)
    requires pat != []
    ensures PosOf(pat, h + [t]) == Advance(pat, PosOf(pat, h), t)
  {
    assert (h + [t])[..|h|] == h;
  }

  lemma EndsWithSnoc(h: seq<int>, pat: seq<int>, k: nat)
    requires h != [] && 0 < k
    ensures EndsWith(h, pat, k) <==> k <= |pat| && EndsWith(h[..|h| - 1], pat, k - 1) && h[|h| - 1] == pat[k - 1]
  {
    var g, c := h[..|h| - 1], h[|h| - 1];
    if k <= |pat| && k <= |h| {
      assert h[|h| - k..] == g[|g| - (k - 1)..] + [c];
      assert pat[..k] == pat[..k - 1] + [pat[k - 1]];
      if h[|h| - k..] == pat[..k] {
        assert g[|g| - (k - 1)..] == h[|h| - k..][..k - 1] == pat[..k][..k - 1];
        assert c == h[|h| - k..][k - 1];
      }
    }
  }

  lemma StutterlessSnoc(h: seq<int>, t: int)
    requires Stutterless(h)
    ensures h == [] || h[|h| - 1] != t ==> Stutterless(h + [t])
  {
  }

  /** Position k means that the last k tracking areas are the first k elements of the pattern. */
  lemma {:induction false} PositionMatches(pat: seq<int>, h: seq<int>)
    requires pat != []
    ensures EndsWith(h, pat, PosOf(pat, h))
  {
    if h != [] {
      var g := h[..|h| - 1];
      PositionMatches(pat, g);
      if PosOf(pat, h) > 0 {
        EndsWithSnoc(h, pat, PosOf(pat, h));
      }
    }
  }

  /** Two matches of one history overlap, so the first element of the pattern recurs. */
  lemma TwoMatchesOverlap(pat: seq<int>, h: seq<int>, k: nat, m: nat)
    requires 0 < k < m && EndsWith(h, pat, k) && EndsWith(h, pat, m)
    ensures pat[m - k] == pat[0]
  {
    assert h[|h| - k..][0] == pat[..k][0];
    assert h[|h| - m..][m - k] == pat[..m][m - k];
  }

  lemma {:induction false} LongestWhenFirstOnce(pat: seq<int>, h: seq<int>, k: nat)
    requires pat != [] && FirstOnce(pat) && EndsWith(h, pat, k)
    ensures k <= PosOf(pat, h)
  {
    if k > 0 {
      var g := h[..|h| - 1];
      EndsWithSnoc(h, pat, k);
      LongestWhenFirstOnce(pat, g, k - 1);
      PositionMatches(pat, g);
      if 0 < k - 1 < PosOf(pat, g) {
        TwoMatchesOverlap(pat, g, k - 1, PosOf(pat, g));
      }
    }
  }

  lemma {:induction false} PrefixAdvances(pat: seq<int>, n: nat)
    requires pat != [] && n <= |pat|
    ensures PosOf(pat, pat[..n]) == n
  {
    if n > 0 {
      PrefixAdvances(pat, n - 1);
      assert pat[..n][..n - 1] == pat[..n - 1];
    }
  }

  /** How far the pattern agrees with itself from `j` on. */
  function Agreement(pat: seq<int>, j: nat, i: nat): (r: nat)
    requires 0 < j && j + i <= |pat| && pat[..i] == pat[j..j + i]
    ensures i <= r && j + r <= |pat| && pat[..r] == pat[j..j + r]
    ensures j + r < |pat| ==> pat[r] != pat[j + r]
    decreases |pat| - i
  {
    if j + i < |pat| && pat[i] == pat[j + i] then
      assert pat[..i + 1] == pat[..i] + [pat[i]] && pat[j..j + i + 1] == pat[j..j + i] + [pat[j + i]];
      Agreement(pat, j, i + 1)
    else i
  }

  /** A history on which the position falls short, for a pattern whose first element recurs at `j`. */
  lemma FallsShort(pat: seq<int>, j: nat) returns (h: seq<int>, k: nat)
    requires 0 < j < |pat| && pat[j] == pat[0]
    ensures EndsWith(h, pat, k) && PosOf(pat, h) < k
    ensures Stutterless(pat) ==> Stutterless(h)
  {
    assert pat[..1] == pat[j..j + 1];
    var i := Agreement(pat, j, 1);
    var g := pat[..j + i];
    h, k := g + [pat[i]], i + 1;
    PrefixAdvances(pat, j + i);
    assert EndsWith(g, pat, i) by {
      assert g[|g| - i..] == pat[j..j + i];
    }
    BrokenStutterless(pat, j, i);
    hide PosOf, EndsWith, Stutterless;
    assert h[..|h| - 1] == g;
    EndsWithSnoc(h, pat, k);
    PosOfSnoc(pat, g, pat[i]);
  }

  lemma BrokenStutterless(pat: seq<int>, j: nat, i: nat)
    requires 0 < i && j + i <= |pat| && pat[..i] == pat[j..j + i]
    ensures Stutterless(pat) && i < |pat| ==> Stutterless(pat[..j + i] + [pat[i]])
  {
    if Stutterless(pat) && i < |pat| {
      var h := pat[..j + i] + [pat[i]];
      assert pat[j..j + i][i - 1] == pat[..i][i - 1];
      assert pat[i - 1] != pat[i - 1 + 1];
      forall m | 0 <= m < |h| - 1 ensures h[m] != h[m + 1] {
        if m + 1 < |h| - 1 {
          assert pat[m] != pat[m + 1];
        }
      }
    }
  }

  /** The position is the longest match on every history iff the first element of the pattern occurs once. */
  lemma LongestIff(pat: seq<int>)
    requires pat != []
    ensures FirstOnce(pat) <==> forall h, k: nat :: EndsWith(h, pat, k) ==> k <= PosOf(pat, h)
  {
    if FirstOnce(pat) {
      forall h, k: nat | EndsWith(h, pat, k) ensures k <= PosOf(pat, h) {
        LongestWhenFirstOnce(pat, h, k);
      }
    } else {
      var j :| 0 < j < |pat| && pat[j] == pat[0];
      var h, k := FallsShort(pat, j);
    }
  }

  // ---------------------------------------------------------------- histories without immediate repeats

  /** The length of the longest prefix without immediate repeats, known to be at least `n`. */
  function Reach(pat: seq<int>, n: nat): (m: nat)
    requires 0 < n <= |pat| && Stutterless(pat[..n])
    ensures n <= m <= |pat| && Stutterless(pat[..m])
    ensures m < |pat| ==> pat[m] == pat[m - 1]
    decreases |pat| - n
  {
    if n < |pat| && pat[n] != pat[n - 1] then
      assert pat[..n + 1] == pat[..n] + [pat[n]];
      Reach(pat, n + 1)
    else n
  }

  /** The part of the pattern that a history without immediate repeats can match: its longest prefix
      without immediate repeats. */
  function Matchable(pat: seq<int>): (p: seq<int>)
    requires pat != []
    ensures p != [] && p <= pat && Stutterless(p)
    ensures p != pat ==> pat[|p|] == p[|p| - 1]
  {
    pat[..Reach(pat, 1)]
  }

  lemma MatchHasNoRepeats(pat: seq<int>, h: seq<int>, k: nat)
    requires Stutterless(h) && EndsWith(h, pat, k)
    ensures forall i :: 0 < i < k ==> pat[i] != pat[i - 1]
  {
    var n := |h| - k;
    forall i | 0 < i < k ensures pat[i] != pat[i - 1] {
      assert h[n..][i] == pat[..k][i] && h[n..][i - 1] == pat[..k][i - 1];
      assert h[n + i - 1] != h[n + i - 1 + 1];
    }
  }

  lemma MatchesMatchable(pat: seq<int>, h: seq<int>, k: nat)
    requires pat != [] && Stutterless(h)
    ensures EndsWith(h, pat, k) <==> EndsWith(h, Matchable(pat), k)
  {
    var p := Matchable(pat);
    if EndsWith(h, pat, k) {
      MatchHasNoRepeats(pat, h, k);
      assert k <= |p|;
    }
    if k <= |p| {
      assert pat[..k] == p[..k];
    }
  }

  /** On a history without immediate repeats the pattern acts as its matchable part. */
  lemma {:induction false} PosOfMatchable(pat: seq<int>, h: seq<int>)
    requires pat != [] && Stutterless(h)
    ensures PosOf(pat, h) == PosOf(Matchable(pat), h)
  {
    if h != [] {
      var p, g, t := Matchable(pat), h[..|h| - 1], h[|h| - 1];
      PosOfMatchable(pat, g);
      if PosOf(p, g) == |p| {
        PositionMatches(p, g);
        assert g[|g| - |p|..][|p| - 1] == p[|p| - 1];
        assert h[|g| - 1] != h[|g| - 1 + 1];
      }
    }
  }

  /** On the histories the tracker keeps, which have no immediate repeats, the position is the longest
      match iff the first element occurs once in the matchable part of the pattern. */
  lemma LongestOnReportsIff(pat: seq<int>)
    requires pat != []
    ensures FirstOnce(Matchable(pat)) <==>
            forall h, k: nat :: Stutterless(h) && EndsWith(h, pat, k) ==> k <= PosOf(pat, h)
  {
    var p := Matchable(pat);
    if FirstOnce(p) {
      forall h, k: nat | Stutterless(h) && EndsWith(h, pat, k) ensures k <= PosOf(pat, h) {
        LongestOnReports(pat, h, k);
      }
    } else {
      var j :| 0 < j < |p| && p[j] == p[0];
      var h, k := FallsShort(p, j);
      MatchesMatchable(pat, h, k);
      PosOfMatchable(pat, h);
    }
  }

  lemma LongestOnReports(pat: seq<int>, h: seq<int>, k: nat)
    requires pat != [] && FirstOnce(Matchable(pat)) && Stutterless(h) && EndsWith(h, pat, k)
    ensures k <= PosOf(pat, h)
  {
    MatchesMatchable(pat, h, k);
    PosOfMatchable(pat, h);
    LongestWhenFirstOnce(Matchable(pat), h, k);
  }

  // ---------------------------------------------------------------- positions reached

  /** At some time the history stood at position `k`. */
  ghost predicate Reached(pat: seq<int>, h: seq<int>, k: nat)
    requires pat != []
  {
    exists n :: 0 < n <= |h| && PosOf(pat, h[..n]) == k
  }

  /** The history contains the first `k` pattern elements in a row. */
  ghost predicate Contains(h: seq<int>, pat: seq<int>, k: nat)
    requires k <= |pat|
  {
    exists n :: 0 < n <= |h| && EndsWith(h[..n], pat, k)
  }

  lemma ReachedAt(pat: seq<int>, h: seq<int>, n: nat)
    requires pat != [] && 0 < n <= |h|
    ensures Reached(pat, h, PosOf(pat, h[..n]))
  {
  }

  lemma NotReached(pat: seq<int>, h: seq<int>, k: nat)
    requires pat != [] && forall n :: 0 < n <= |h| ==> PosOf(pat, h[..n]) != k
    ensures !Reached(pat, h, k)
  {
  }

  lemma LastIsReached(pat: seq<int>, h: seq<int>)
    requires pat != [] && h != []
    ensures Reached(pat, h, PosOf(pat, h))
  {
    assert h[..|h|] == h;
  }

  lemma ReachedLonger(pat: seq<int>, g: seq<int>, h: seq<int>, k: nat)
    requires pat != [] && g <= h && Reached(pat, g, k)
    ensures Reached(pat, h, k)
  {
    var n :| 0 < n <= |g| && PosOf(pat, g[..n]) == k;
    assert g[..n] == h[..n];
  }

  lemma ReachedSnoc(pat: seq<int>, h: seq<int>, t: int, k: nat)
    requires pat != []
    ensures Reached(pat, h + [t], k) <==> Reached(pat, h, k) || PosOf(pat, h + [t]) == k
  {
    var g := h + [t];
    if Reached(pat, h, k) {
      var n :| 0 < n <= |h| && PosOf(pat, h[..n]) == k;
      assert g[..n] == h[..n];
    }
    if Reached(pat, g, k) {
      var n :| 0 < n <= |g| && PosOf(pat, g[..n]) == k;
      if n <= |h| {
        assert g[..n] == h[..n];
      } else {
        assert g[..n] == g;
      }
    }
    if PosOf(pat, g) == k {
      assert g[..|g|] == g;
    }
  }

  /** To reach the end of the pattern a history must have stood one before the end. */
  lemma ReachedBefore(pat: seq<int>, h: seq<int>)
    requires |pat| >= 2 && Reached(pat, h, |pat|)
    ensures Reached(pat, h, |pat| - 1)
  {
    var n :| 0 < n <= |h| && PosOf(pat, h[..n]) == |pat|;
    assert h[..n][..n - 1] == h[..n - 1];
    assert PosOf(pat, h[..n - 1]) == |pat| - 1;
  }

  /** The position grows by one at a time. */
  lemma {:induction false} ReachedOnTheWay(pat: seq<int>, h: seq<int>, k: nat)
    requires pat != [] && 0 < k <= PosOf(pat, h)
    ensures Reached(pat, h, k)
  {
    LastIsReached(pat, h);
    if k < PosOf(pat, h) {
      ReachedOnTheWay(pat, h[..|h| - 1], k);
      ReachedLonger(pat, h[..|h| - 1], h, k);
    }
  }

  lemma ReachedIsContained(pat: seq<int>, h: seq<int>, k: nat)
    requires pat != [] && k <= |pat| && Reached(pat, h, k)
    ensures Contains(h, pat, k)
  {
    var n :| 0 < n <= |h| && PosOf(pat, h[..n]) == k;
    PositionMatches(pat, h[..n]);
  }

  // ---------------------------------------------------------------- occurrences found

  /** Wherever the first element recurs within the first `k`, a copy of the pattern starts that runs to `k`.
      (A history without immediate repeats contains no other `k` elements than those without them.) */
  predicate OverlapsAgree(pat: seq<int>, k: nat)
    requires 0 < k <= |pat|
  {
    Stutterless(pat[..k]) ==> forall j :: 0 < j < k && pat[j] == pat[0] ==> pat[j..k] == pat[..k - j]
  }

  /** The future depends on the position alone. */
  lemma {:induction false} SameFuture(pat: seq<int>, g: seq<int>, h: seq<int>, w: seq<int>)
    requires pat != [] && PosOf(pat, g) == PosOf(pat, h)
    ensures PosOf(pat, g + w) == PosOf(pat, h + w)
  {
    if w == [] {
      assert g + w == g && h + w == h;
    } else {
      var v, t := w[..|w| - 1], w[|w| - 1];
      SameFuture(pat, g, h, v);
      assert g + w == (g + v) + [t] && h + w == (h + v) + [t];
      PosOfSnoc(pat, g + v, t);
      PosOfSnoc(pat, h + v, t);
    }
  }

  /** A match that begins inside another is followed to its end when the overlap agrees. */
  lemma FollowedFromOverlap(pat: seq<int>, g: seq<int>, j: nat, k: nat)
    requires j < k <= |pat| && PosOf(pat, g) == j + 1 && pat[j..k] == pat[..k - j]
    ensures PosOf(pat, g + pat[1..k - j]) == k
  {
    PrefixAdvances(pat, j + 1);
    assert pat[1..k - j] == pat[j + 1..k] by {
      assert pat[1..k - j] == pat[..k - j][1..] && pat[j + 1..k] == pat[j..k][1..];
    }
    SameFuture(pat, g, pat[..j + 1], pat[j + 1..k]);
    assert pat[..j + 1] + pat[j + 1..k] == pat[..k];
    PrefixAdvances(pat, k);
  }

  /** The position grows by at most one with each element. */
  lemma {:induction false} GrowsByOne(pat: seq<int>, h: seq<int>, m: nat)
    requires pat != [] && m <= |h|
    ensures PosOf(pat, h) <= PosOf(pat, h[..m]) + |h| - m
  {
    if m == |h| {
      assert h[..m] == h;
    } else {
      var g := h[..|h| - 1];
      GrowsByOne(pat, g, m);
      assert g[..m] == h[..m];
    }
  }

  /** With too few elements to come, `k` is out of reach. */
  lemma OutOfReach(pat: seq<int>, h: seq<int>, m: nat, n: nat, k: nat)
    requires pat != [] && m <= n <= |h| && PosOf(pat, h[..m]) + |h| - m < k
    ensures PosOf(pat, h[..n]) < k
  {
    GrowsByOne(pat, h[..n], m);
    assert h[..n][..m] == h[..m];
  }

  /** Where the overlap disagrees the automaton falls back. */
  lemma FallsBack(pat: seq<int>, j: nat, k: nat) returns (n: nat)
    requires 0 < j < k <= |pat| && pat[j] == pat[0] && pat[j..k] != pat[..k - j]
    ensures j < n < k
    ensures var o := pat[..j] + pat[..k];
            o[..n] == pat[..n] && PosOf(pat, o[..n + 1]) <= 1
  {
    assert pat[..1] == pat[j..j + 1];
    var r := Agreement(pat, j, 1);
    if j + r >= k {
      AgreementReaches(pat, j, k, r);
    }
    hide PosOf;
    n := j + r;
    var o := pat[..j] + pat[..k];
    OverlapParts(pat, j, k, r);
    PrefixAdvances(pat, n);
    PosOfSnoc(pat, o[..n], pat[r]);
  }

  /** And then it does not get to `k` any more. */
  lemma DisagreementMissed(pat: seq<int>, j: nat, k: nat)
    requires 0 < j < k <= |pat| && pat[j] == pat[0] && pat[j..k] != pat[..k - j]
    ensures !Reached(pat, pat[..j] + pat[..k], k)
  {
    hide PosOf, Reached;
    var o := pat[..j] + pat[..k];
    var m := FallsBack(pat, j, k);
    forall n | 0 < n <= |o| ensures PosOf(pat, o[..n]) != k {
      if n <= m {
        PrefixOfPrefix(o, pat, n, m);
        PrefixAdvances(pat, n);
      } else {
        OutOfReach(pat, o, m + 1, n, k);
      }
    }
    NotReached(pat, o, k);
  }

  lemma PrefixOfPrefix(o: seq<int>, pat: seq<int>, n: nat, m: nat)
    requires n <= m <= |o| && m <= |pat| && o[..m] == pat[..m]
    ensures o[..n] == pat[..n]
  {
    assert o[..n] == o[..m][..n] && pat[..n] == pat[..m][..n];
  }

  lemma AgreementReaches(pat: seq<int>, j: nat, k: nat, r: nat)
    requires j < k <= j + r <= |pat| && pat[..r] == pat[j..j + r]
    ensures pat[j..k] == pat[..k - j]
  {
    assert pat[..k - j] == pat[..r][..k - j] && pat[j..k] == pat[j..j + r][..k - j];
  }

  /** Up to the disagreement the overlapping history is the pattern. */
  lemma OverlapParts(pat: seq<int>, j: nat, k: nat, r: nat)
    requires 0 < j && j + r < k <= |pat| && pat[..r] == pat[j..j + r]
    ensures var o := pat[..j] + pat[..k];
            o[..j + r] == pat[..j + r] && o[..j + r + 1] == o[..j + r] + [pat[r]]
  {
    var o := pat[..j] + pat[..k];
    forall i | 0 <= i < j + r ensures o[i] == pat[i] {
      if i >= j {
        assert o[i] == pat[..r][i - j] && pat[i] == pat[j..j + r][i - j];
      }
    }
  }

  /** Where the history shows the first element of the pattern, so does the position. */
  lemma FirstOfMatch(pat: seq<int>, h: seq<int>, s: nat)
    requires pat != [] && s < |h| && h[s] == pat[0]
    ensures var q := PosOf(pat, h[..s + 1]);
            q >= 1 && pat[q - 1] == pat[0]
  {
    assert h[..s + 1] == h[..s] + [pat[0]];
    PosOfSnoc(pat, h[..s], pat[0]);
  }

  lemma PrefixStutterless(h: seq<int>, pat: seq<int>, k: nat, n: nat)
    requires n <= |h| && Stutterless(h) && EndsWith(h[..n], pat, k)
    ensures Stutterless(pat[..k])
  {
    MatchHasNoRepeats(pat, h[..n], k);
    forall i | 0 <= i < k - 1 ensures pat[..k][i] != pat[..k][i + 1] {
      assert pat[i + 1] != pat[i + 1 - 1];
    }
  }

  /** The pieces of a history with a match that ends at `n`. */
  lemma MatchSplits(h: seq<int>, pat: seq<int>, k: nat, n: nat)
    requires 0 < k && n <= |h| && EndsWith(h[..n], pat, k)
    ensures k <= n && h[n - k] == pat[0]
    ensures forall m :: 1 <= m <= k ==> h[..n - k + 1] + pat[1..m] == h[..n - k + m]
  {
    var w := h[..n];
    assert forall i :: 0 <= i < k ==> w[|w| - k..][i] == pat[..k][i];
    assert forall i :: 0 <= i < k ==> h[n - k + i] == pat[i];
  }

  lemma ContainedIsReached(pat: seq<int>, h: seq<int>, k: nat)
    requires 0 < k <= |pat| && OverlapsAgree(pat, k) && Stutterless(h) && Contains(h, pat, k)
    ensures Reached(pat, h, k)
  {
    hide PosOf, EndsWith, Reached, Stutterless;
    var n :| 0 < n <= |h| && EndsWith(h[..n], pat, k);
    MatchSplits(h, pat, k, n);
    var s := n - k;
    var g := h[..s + 1];
    FirstOfMatch(pat, h, s);
    var q := PosOf(pat, g);
    if q >= k {
      ReachedOnTheWay(pat, g, k);
      ReachedLonger(pat, g, h, k);
    } else {
      PrefixStutterless(h, pat, k, n);
      assert q == 1 ==> pat[0..k] == pat[..k];
      FollowedFromOverlap(pat, g, q - 1, k);
      ReachedAt(pat, h, s + k - (q - 1));
    }
  }

  lemma OverlapContains(pat: seq<int>, j: nat, k: nat)
    requires 0 < j < k <= |pat| && pat[j] == pat[0] && Stutterless(pat[..k])
    ensures Stutterless(pat[..j] + pat[..k]) && Contains(pat[..j] + pat[..k], pat, k)
  {
    var o, p := pat[..j] + pat[..k], pat[..k];
    assert o[..|o|] == o && o[|o| - k..] == p;
    forall i | 0 <= i < |o| - 1 ensures o[i] != o[i + 1] {
      if i < j {
        assert o[i] == p[i] && o[i + 1] == p[i + 1];
      } else {
        assert o[i] == p[i - j] && o[i + 1] == p[i - j + 1];
      }
    }
  }

  /** Every history without immediate repeats that contains the first `k` elements in a row has stood at
      position `k`, if and only if every recurrence of the first element starts a copy that runs to `k`. */
  lemma ReachedWhenContainedIff(pat: seq<int>, k: nat)
    requires 0 < k <= |pat|
    ensures OverlapsAgree(pat, k) <==> forall h :: Stutterless(h) && Contains(h, pat, k) ==> Reached(pat, h, k)
  {
    hide Contains, Reached;
    if OverlapsAgree(pat, k) {
      forall h | Stutterless(h) && Contains(h, pat, k) ensures Reached(pat, h, k) {
        ContainedIsReached(pat, h, k);
      }
    } else {
      var j :| 0 < j < k && pat[j] == pat[0] && pat[j..k] != pat[..k - j];
      OverlapContains(pat, j, k);
      DisagreementMissed(pat, j, k);
    }
  }

  /** A first element that occurs once in the matchable part of the pattern is enough. */
  lemma FirstOnceAgrees(pat: seq<int>, k: nat)
    requires 0 < k <= |pat| && FirstOnce(Matchable(pat))
    ensures OverlapsAgree(pat, k)
  {
    if Stutterless(pat[..k]) {
      var p := Matchable(pat);
      assert pat[..k][..k] == pat[..k] && pat[..k][0..] == pat[..k];
      assert EndsWith(pat[..k], pat, k);
      MatchesMatchable(pat, pat[..k], k);
      assert forall j :: 0 < j < k ==> pat[j] == p[j];
    }
  }

  /** The pattern 1, 2, 1, 2, 3, 9 and a history that ends with its first five elements and never stands at
      position five. */
  lemma OverlapMissed()
    ensures var pat, h := [1, 2, 1, 2, 3, 9], [1, 2, 1, 2, 1, 2, 3];
            Stutterless(h) && Contains(h, pat, 5) && !Reached(pat, h, 5)
  {
    hide Contains, Reached;
    var pat, h := [1, 2, 1, 2, 3, 9], [1, 2, 1, 2, 1, 2, 3];
    assert pat[..2] + pat[..5] == h;
    assert pat[2..5][2] != pat[..3][2];
    OverlapContains(pat, 2, 5);
    DisagreementMissed(pat, 2, 5);
  }
}
