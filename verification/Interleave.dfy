/**
 Interleaving: element `i` of a message belongs to lane `i % m`.
 */
module Interleave {
  import opened Folds

  /** The elements of lane `j` out of `m`, in message order. */
  function LaneInput<X>(s: seq<X>, m: nat, j: nat): (r: seq<X>)
    requires 0 < m
    decreases |s|
  {
    if s == [] then []
    else
      var n := |s| - 1;
      LaneInput(s[..n], m, j) + if n % m == j then [s[n]] else []
  }

  /** The messages differ at `p` and nowhere else in the lane of `p`. */
  ghost predicate DifferOnceInLane<X>(s: seq<X>, t: seq<X>, m: nat, p: nat)
    requires 0 < m
  {
    && |s| == |t| && p < |s| && s[p] != t[p]
    && forall q :: 0 <= q < |s| && q != p && q % m == p % m ==> s[q] == t[q]
  }

  lemma {:induction false} SameLaneInput<X>(s: seq<X>, t: seq<X>, m: nat, j: nat)
    requires 0 < m && |s| == |t|
    requires forall q :: 0 <= q < |s| && q % m == j ==> s[q] == t[q]
    ensures LaneInput(s, m, j) == LaneInput(t, m, j)
    decreases |s|
  {
    if s != [] {
      SameLaneInput(s[..|s| - 1], t[..|s| - 1], m, j);
    }
  }

  /** The different element is one element of the lane, at the place given by the lane's elements before it. */
  lemma {:induction false} LaneInputsDifferOnce<X>(s: seq<X>, t: seq<X>, m: nat, p: nat) returns (k: nat)
    requires 0 < m && DifferOnceInLane(s, t, m, p)
    ensures AgreeOutside(LaneInput(s, m, p % m), LaneInput(t, m, p % m), k, k + 1)
    ensures LaneInput(s, m, p % m) != LaneInput(t, m, p % m)
    decreases |s|
  {
    var n := |s| - 1;
    var (ls, lt) := (LaneInput(s[..n], m, p % m), LaneInput(t[..n], m, p % m));
    var (xs, xt) := (LaneInput(s, m, p % m), LaneInput(t, m, p % m));
    if p == n {
      SameLaneInput(s[..n], t[..n], m, p % m);
      k := |ls|;
      assert xs == ls + [s[p]] && xt == ls + [t[p]];
      assert xs[k] != xt[k];
    } else {
      k := LaneInputsDifferOnce(s[..n], t[..n], m, p);
      assert xs[..|ls|] == ls && xt[..|lt|] == lt;
      assert ls[..k] == lt[..k] && ls[k + 1..] == lt[k + 1..];
      assert xs[..k] == ls[..k] && xt[..k] == lt[..k];
      assert xs[k + 1..] == ls[k + 1..] + xs[|ls|..] && xt[k + 1..] == lt[k + 1..] + xt[|lt|..];
    }
  }

  /** Messages that differ only inside a window as wide as the lanes are many differ once in some lane. */
  lemma WindowDiffersOnce<X>(s: seq<X>, t: seq<X>, lo: nat, hi: nat, m: nat) returns (p: nat)
    requires m == 4 || m == 8
    requires AgreeOutside(s, t, lo, hi) && hi - lo <= m && s != t
    ensures DifferOnceInLane(s, t, m, p)
  {
    p := 0;
    while s[p] == t[p]
      invariant p < |s| && s[..p] == t[..p]
      decreases |s| - p
    {
      assert s[..p + 1] == t[..p + 1];
      p := p + 1;
      assert s[..|s|] == s && t[..|t|] == t;
    }
    AgreeElsewhere(s, t, lo, hi);
    forall q | 0 <= q < |s| && q != p && q % m == p % m ensures s[q] == t[q] {
      SameResidueFarApart(p, q, m);
    }
  }

  lemma AgreeElsewhere<X>(s: seq<X>, t: seq<X>, lo: nat, hi: nat)
    requires AgreeOutside(s, t, lo, hi)
    ensures forall q :: 0 <= q < |s| && !(lo <= q < hi) ==> s[q] == t[q]
  {
    forall q | 0 <= q < |s| && !(lo <= q < hi) ensures s[q] == t[q] {
      if q < lo {
        assert s[..lo][q] == t[..lo][q];
      } else {
        assert s[hi..][q - hi] == t[hi..][q - hi];
      }
    }
  }

  lemma SameResidueFarApart(p: nat, q: nat, m: nat)
    requires m == 4 || m == 8
    requires p % m == q % m && p != q
    ensures p + m <= q || q + m <= p
  {
    if m == 4 {
    } else {
    }
  }

  lemma LaneInputLast<X>(s: seq<X>, x: X, m: nat, j: nat)
    requires 0 < m
    ensures LaneInput(s + [x], m, j) == LaneInput(s, m, j) + if |s| % m == j then [x] else []
  {
    assert (s + [x])[..|s|] == s;
  }

  lemma SmallMod(n: nat, m: nat)
    requires n < m
    ensures n % m == n && m % m == 0
  {
  }

  lemma LaneInputEarly<X>(s: seq<X>, x: X, m: nat, j: nat)
    requires |s| < m && j < m
    ensures LaneInput(s + [x], m, j) == LaneInput(s, m, j) + if |s| == j then [x] else []
  {
    SmallMod(|s|, m);
    LaneInputLast(s, x, m, j);
  }

  lemma LaneInputWraps<X>(s: seq<X>, x: X, m: nat, j: nat)
    requires |s| == m && j < m
    ensures LaneInput(s + [x], m, j) == LaneInput(s, m, j) + if j == 0 then [x] else []
  {
    SmallMod(0, m);
    LaneInputLast(s, x, m, j);
  }

  /** One element and `n` fillers. */
  function Opening<X>(x: X, zero: X, n: nat): (s: seq<X>)
    ensures |s| == n + 1 && s[0] == x
  {
    if n == 0 then [x] else Opening(x, zero, n - 1) + [zero]
  }

  /** One element, fillers up to the next place in its lane, and an element there. */
  function TwoElements<X>(m: nat, x: X, zero: X, y: X): (s: seq<X>)
    requires 0 < m
    ensures |s| == m + 1 && s[0] == x
  {
    Opening(x, zero, m - 1) + [y]
  }

  lemma {:induction false} OpeningLanes<X>(m: nat, x: X, zero: X, n: nat, j: nat)
    requires n < m && j < m
    ensures LaneInput(Opening(x, zero, n), m, j) == if j == 0 then [x] else if j <= n then [zero] else []
    decreases n
  {
    hide LaneInput;
    if n == 0 {
      LaneInputNone<X>(m, j);
      LaneInputEarly([], x, m, j);
      assert [] + [x] == [x];
    } else {
      OpeningLanes(m, x, zero, n - 1, j);
      LaneInputEarly(Opening(x, zero, n - 1), zero, m, j);
    }
  }

  lemma LaneInputNone<X>(m: nat, j: nat)
    requires 0 < m
    ensures LaneInput<X>([], m, j) == []
  {
  }

  lemma TwoElementsLanes<X>(m: nat, x: X, zero: X, y: X, j: nat)
    requires 0 < m && j < m
    ensures LaneInput(TwoElements(m, x, zero, y), m, j) == if j == 0 then [x, y] else [zero]
  {
    hide LaneInput;
    LaneInputWraps(Opening(x, zero, m - 1), y, m, j);
    OpeningLanes(m, x, zero, m - 1, j);
  }
}
