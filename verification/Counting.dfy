/** Totals over a sequence when one element changes. */
module Counting {

  function Count<T>(s: seq<T>, f: T -> bool): nat
    decreases |s|
  {
    if s == [] then 0 else Count(s[..|s| - 1], f) + if f(s[|s| - 1]) then 1 else 0
  }

  lemma {:induction false} CountSet<T>(s: seq<T>, f: T -> bool, i: nat, x: T)
    requires i < |s|
    ensures Count(s[i := x], f) == Count(s, f) - (if f(s[i]) then 1 else 0) + (if f(x) then 1 else 0)
    decreases |s|
  {
    var n := |s| - 1;
    if i == n {
      assert s[i := x][..n] == s[..n];
    } else {
      assert s[i := x][..n] == s[..n][i := x];
      CountSet(s[..n], f, i, x);
    }
  }

  lemma {:induction false} CountOne<T>(s: seq<T>, f: T -> bool, i: nat)
    requires i < |s| && f(s[i])
    ensures Count(s, f) >= 1
    decreases |s|
  {
    var n := |s| - 1;
    if i < n {
      CountOne(s[..n], f, i);
    }
  }

  lemma {:induction false} CountAtMost<T>(s: seq<T>, f: T -> bool)
    ensures Count(s, f) <= |s|
    decreases |s|
  {
    if s != [] {
      CountAtMost(s[..|s| - 1], f);
    }
  }

  lemma {:induction false} CountNone<T>(s: seq<T>, f: T -> bool)
    requires forall i :: 0 <= i < |s| ==> !f(s[i])
    ensures Count(s, f) == 0
    decreases |s|
  {
    if s != [] {
      CountNone(s[..|s| - 1], f);
    }
  }

  /** The sum of a measure. */
  function Total<T>(s: seq<T>, f: T -> nat): nat
    decreases |s|
  {
    if s == [] then 0 else Total(s[..|s| - 1], f) + f(s[|s| - 1])
  }

  lemma {:induction false} TotalSet<T>(s: seq<T>, f: T -> nat, i: nat, x: T)
    requires i < |s|
    ensures Total(s[i := x], f) + f(s[i]) == Total(s, f) + f(x)
    decreases |s|
  {
    var n := |s| - 1;
    if i == n {
      assert s[i := x][..n] == s[..n];
    } else {
      assert s[i := x][..n] == s[..n][i := x];
      TotalSet(s[..n], f, i, x);
    }
  }

  /** Everything the elements hold. */
  function Gather<T, U>(s: seq<T>, f: T -> multiset<U>): multiset<U>
    decreases |s|
  {
    if s == [] then multiset{} else Gather(s[..|s| - 1], f) + f(s[|s| - 1])
  }

  lemma {:induction false} GatherSet<T, U>(s: seq<T>, f: T -> multiset<U>, i: nat, x: T)
    requires i < |s|
    ensures Gather(s[i := x], f) + f(s[i]) == Gather(s, f) + f(x)
    decreases |s|
  {
    var n := |s| - 1;
    if i == n {
      assert s[i := x][..n] == s[..n];
    } else {
      assert s[i := x][..n] == s[..n][i := x];
      GatherSet(s[..n], f, i, x);
      var (was, now) := (Gather(s[..n], f), Gather(s[i := x][..n], f));
      assert (now + f(s[n])) + f(s[i]) == (now + f(s[i])) + f(s[n]) == (was + f(x)) + f(s[n]);
      assert (was + f(x)) + f(s[n]) == (was + f(s[n])) + f(x);
    }
  }

  lemma {:induction false} GatherNone<T, U>(s: seq<T>, f: T -> multiset<U>)
    requires forall i :: 0 <= i < |s| ==> f(s[i]) == multiset{}
    ensures Gather(s, f) == multiset{}
    decreases |s|
  {
    if s != [] {
      GatherNone(s[..|s| - 1], f);
    }
  }
}
