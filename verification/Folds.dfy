/**
 Left folds over sequences, for any state and input type. The hash functions are folds;
 their whole-message properties are proved here once, from properties of a single step.
 */
module Folds {

  /** Feeds `xs` to the machine `step`, starting in state `s`. */
  function Fold<S, X>(step: (S, X) -> S, s: S, xs: seq<X>): S
    decreases |xs|
  {
    if xs == [] then s else Fold(step, step(s, xs[0]), xs[1..])
  }

  /** `n` applications of `f`. */
  function Iterate<S>(f: S -> S, s: S, n: nat): S {
    if n == 0 then s else Iterate(f, f(s), n - 1)
  }

  /** `expand` applied to every input, the results concatenated. */
  function FlatMap<X, Y>(expand: X -> seq<Y>, xs: seq<X>): seq<Y>
    decreases |xs|
  {
    if xs == [] then [] else expand(xs[0]) + FlatMap(expand, xs[1..])
  }

  /** `f` applied position by position to two sequences of one length. */
  function Zip<X>(f: (X, X) -> X, xs: seq<X>, ys: seq<X>): (r: seq<X>)
    requires |xs| == |ys|
    ensures |r| == |xs|
    ensures forall i :: 0 <= i < |r| ==> r[i] == f(xs[i], ys[i])
  {
    seq(|xs|, i requires 0 <= i < |xs| => f(xs[i], ys[i]))
  }

  /** Two inputs of one length that agree outside positions `lo` to `hi`. */
  predicate AgreeOutside<X(==)>(xs: seq<X>, ys: seq<X>, lo: nat, hi: nat) {
    |xs| == |ys| && lo <= hi <= |xs| && xs[..lo] == ys[..lo] && xs[hi..] == ys[hi..]
  }

  lemma {:induction false} FoldConcat<S, X>(step: (S, X) -> S, s: S, a: seq<X>, b: seq<X>)
    ensures Fold(step, s, a + b) == Fold(step, Fold(step, s, a), b)
    decreases |a|
  {
    if a == [] {
      assert a + b == b;
    } else {
      assert (a + b)[0] == a[0] && (a + b)[1..] == a[1..] + b;
      FoldConcat(step, step(s, a[0]), a[1..], b);
    }
  }

  /** The last input is the last step taken. */
  lemma FoldLast<S, X>(step: (S, X) -> S, s: S, a: seq<X>, x: X)
    ensures Fold(step, s, a + [x]) == step(Fold(step, s, a), x)
  {
    FoldConcat(step, s, a, [x]);
    assert [x][1..] == [];
  }

  ghost predicate Injective<S(!new), T>(f: S -> T) {
    forall a, b :: f(a) == f(b) ==> a == b
  }

  ghost predicate InjectiveInState<S(!new), X(!new)>(step: (S, X) -> S) {
    forall a, b, x :: step(a, x) == step(b, x) ==> a == b
  }

  ghost predicate InjectiveInInput<S(!new), X(!new)>(step: (S, X) -> S) {
    forall s, x, y :: step(s, x) == step(s, y) ==> x == y
  }

  /** A step that loses nothing of the state makes a fold that loses nothing of it. */
  lemma {:induction false} FoldInjective<S(!new), X(!new)>(step: (S, X) -> S, a: S, b: S, xs: seq<X>)
    requires InjectiveInState(step)
    requires Fold(step, a, xs) == Fold(step, b, xs)
    ensures a == b
    decreases |xs|
  {
    if xs != [] {
      FoldInjective(step, step(a, xs[0]), step(b, xs[0]), xs[1..]);
    }
  }

  /** A machine whose step is a burst of finer steps is simulated by the finer machine. */
  lemma {:induction false} FoldExpand<S(!new), X(!new), Y>(coarse: (S, X) -> S, fine: (S, Y) -> S,
      expand: X -> seq<Y>, s: S, xs: seq<X>)
    requires forall t, x :: coarse(t, x) == Fold(fine, t, expand(x))
    ensures Fold(coarse, s, xs) == Fold(fine, s, FlatMap(expand, xs))
    decreases |xs|
  {
    if xs != [] {
      FoldExpand(coarse, fine, expand, coarse(s, xs[0]), xs[1..]);
      FoldConcat(fine, s, expand(xs[0]), FlatMap(expand, xs[1..]));
    }
  }

  /** An operation kept by the step is kept by the fold. */
  lemma {:induction false} FoldZip<S(!new), X(!new)>(step: (S, X) -> S, op: (S, S) -> S, inputOp: (X, X) -> X,
      s: S, t: S, xs: seq<X>, ys: seq<X>)
    requires |xs| == |ys|
    requires forall a, b, x, y :: step(op(a, b), inputOp(x, y)) == op(step(a, x), step(b, y))
    ensures Fold(step, op(s, t), Zip(inputOp, xs, ys)) == op(Fold(step, s, xs), Fold(step, t, ys))
    decreases |xs|
  {
    if xs != [] {
      assert Zip(inputOp, xs, ys)[1..] == Zip(inputOp, xs[1..], ys[1..]);
      FoldZip(step, op, inputOp, step(s, xs[0]), step(t, ys[0]), xs[1..], ys[1..]);
    }
  }

  /** The same for three messages and a digest of the final state, when three of the start add up to the start. */
  lemma FoldZipDigest<S(!new), X(!new)>(step: (S, X) -> S, op: (S, S) -> S, inputOp: (X, X) -> X,
      finish: S -> S, s: S, xs: seq<X>, ys: seq<X>, zs: seq<X>)
    requires |xs| == |ys| == |zs|
    requires forall a, b, x, y :: step(op(a, b), inputOp(x, y)) == op(step(a, x), step(b, y))
    requires forall a, b, c :: finish(op(op(a, b), c)) == op(op(finish(a), finish(b)), finish(c))
    requires op(op(s, s), s) == s
    ensures finish(Fold(step, s, Zip(inputOp, Zip(inputOp, xs, ys), zs)))
            == op(op(finish(Fold(step, s, xs)), finish(Fold(step, s, ys))), finish(Fold(step, s, zs)))
  {
    FoldZip(step, op, inputOp, op(s, s), s, Zip(inputOp, xs, ys), zs);
    FoldZip(step, op, inputOp, s, s, xs, ys);
  }

  /** A function that commutes with an operation commutes with it when iterated. */
  lemma {:induction false} IterateHom<S(!new)>(f: S -> S, op: (S, S) -> S, a: S, b: S, n: nat)
    requires forall x, y :: f(op(x, y)) == op(f(x), f(y))
    ensures Iterate(f, op(a, b), n) == op(Iterate(f, a, n), Iterate(f, b, n))
    decreases n
  {
    if n > 0 {
      IterateHom(f, op, f(a), f(b), n - 1);
    }
  }

  /** `n` inputs read off a word one after the other. */
  function ReadOff<S, X>(read: S -> X, next: S -> S, w: S, n: nat): (xs: seq<X>)
    ensures |xs| == n
    decreases n
  {
    if n == 0 then [] else [read(w)] + ReadOff(read, next, next(w), n - 1)
  }

  /**
   If a word can be added to the state ahead of time, to be read off as the machine `f`
   runs without input, then running `f` on the sum is feeding `step` what is read off.
   */
  lemma {:induction false} PreloadFold<S(!new), X>(f: S -> S, step: (S, X) -> S, op: (S, S) -> S, read: S -> X,
      next: S -> S,
      s: S, w: S, n: nat)
    requires forall t, v :: f(op(t, v)) == op(step(t, read(v)), next(v))
    ensures Iterate(f, op(s, w), n) == op(Fold(step, s, ReadOff(read, next, w, n)), Iterate(next, w, n))
    decreases n
  {
    if n > 0 {
      PreloadFold(f, step, op, read, next, step(s, read(w)), next(w), n - 1);
      assert ReadOff(read, next, w, n)[1..] == ReadOff(read, next, next(w), n - 1);
    }
  }

  lemma {:induction false} IterateAdd<S>(f: S -> S, s: S, n: nat, m: nat)
    ensures Iterate(f, s, n + m) == Iterate(f, Iterate(f, s, n), m)
    decreases n
  {
    if n > 0 {
      IterateAdd(f, f(s), n - 1, m);
    }
  }

  lemma IterateStep<S>(f: S -> S, s: S, n: nat)
    requires n > 0
    ensures Iterate(f, s, n) == Iterate(f, f(s), n - 1)
  {
  }

  lemma Iterate4<S>(f: S -> S, s: S)
    ensures Iterate(f, s, 4) == f(f(f(f(s))))
  {
    IterateStep(f, s, 4);
    IterateStep(f, f(s), 3);
  }

  lemma {:induction false} IterateMonotone<S(!new)>(f: S -> S, le: (S, S) -> bool, a: S, b: S, n: nat)
    requires forall x, y :: le(x, y) ==> le(f(x), f(y))
    requires le(a, b)
    ensures le(Iterate(f, a, n), Iterate(f, b, n))
    decreases n
  {
    if n > 0 {
      IterateMonotone(f, le, f(a), f(b), n - 1);
    }
  }

  lemma {:induction false} IterateInjective<S(!new)>(f: S -> S, a: S, b: S, n: nat)
    requires Injective(f)
    requires Iterate(f, a, n) == Iterate(f, b, n)
    ensures a == b
    decreases n
  {
    if n > 0 {
      IterateInjective(f, f(a), f(b), n - 1);
    }
  }

  lemma {:induction false} FlatMapConcat<X, Y>(expand: X -> seq<Y>, a: seq<X>, b: seq<X>)
    ensures FlatMap(expand, a + b) == FlatMap(expand, a) + FlatMap(expand, b)
    decreases |a|
  {
    if a == [] {
      assert a + b == b;
    } else {
      assert (a + b)[0] == a[0] && (a + b)[1..] == a[1..] + b;
      FlatMapConcat(expand, a[1..], b);
    }
  }

  lemma {:induction false} FlatMapLength<X(!new), Y>(expand: X -> seq<Y>, a: seq<X>, width: nat)
    requires forall x :: |expand(x)| == width
    ensures |FlatMap(expand, a)| == |a| * width
    decreases |a|
  {
    if a != [] {
      FlatMapLength(expand, a[1..], width);
    }
  }

  lemma {:induction false} FlatMapInjective<X(!new), Y>(expand: X -> seq<Y>, a: seq<X>, b: seq<X>, width: nat)
    requires forall x :: |expand(x)| == width
    requires Injective(expand)
    requires |a| == |b| && FlatMap(expand, a) == FlatMap(expand, b)
    ensures a == b
    decreases |a|
  {
    if a != [] {
      var (fa, fb) := (FlatMap(expand, a), FlatMap(expand, b));
      assert fa[..width] == expand(a[0]) && fb[..width] == expand(b[0]);
      assert fa[width..] == FlatMap(expand, a[1..]) && fb[width..] == FlatMap(expand, b[1..]);
      FlatMapInjective(expand, a[1..], b[1..], width);
      assert a == [a[0]] + a[1..] && b == [b[0]] + b[1..];
    }
  }

  lemma AgreeParts<X>(before: seq<X>, xm: seq<X>, ym: seq<X>, after: seq<X>)
    requires |xm| == |ym|
    ensures AgreeOutside(before + xm + after, before + ym + after, |before|, |before + xm|)
  {
  }

  /** A window of inputs is a window of their expansions. */
  lemma FlatMapAgree<X(!new), Y>(expand: X -> seq<Y>, a: seq<X>, b: seq<X>, lo: nat, hi: nat, width: nat)
    requires forall x :: |expand(x)| == width
    requires AgreeOutside(a, b, lo, hi)
    ensures AgreeOutside(FlatMap(expand, a), FlatMap(expand, b),
                         |FlatMap(expand, a[..lo])|, |FlatMap(expand, a[..lo] + a[lo..hi])|)
  {
    FlatMapParts(expand, a, lo, hi);
    FlatMapParts(expand, b, lo, hi);
    FlatMapConcat(expand, a[..lo], a[lo..hi]);
    FlatMapLength(expand, a[lo..hi], width);
    FlatMapLength(expand, b[lo..hi], width);
    AgreeParts(FlatMap(expand, a[..lo]), FlatMap(expand, a[lo..hi]),
      FlatMap(expand, b[lo..hi]), FlatMap(expand, a[hi..]));
  }

  lemma FlatMapParts<X, Y>(expand: X -> seq<Y>, a: seq<X>, lo: nat, hi: nat)
    requires lo <= hi <= |a|
    ensures FlatMap(expand, a) == FlatMap(expand, a[..lo]) + FlatMap(expand, a[lo..hi]) + FlatMap(expand, a[hi..])
  {
    assert a[..hi] == a[..lo] + a[lo..hi];
    FlatMapConcat(expand, a[..lo], a[lo..hi]);
    assert a == a[..hi] + a[hi..];
    FlatMapConcat(expand, a[..hi], a[hi..]);
  }

  /**
   A burst argument. `close(a, b, n)` reads "a and b can still be brought together by `n`
   more inputs". If every step keeps that promise backwards, and states that were equal
   before a step tell its inputs apart, then two bursts of the same length `n <= limit`
   from one state end in one state only if they are the same burst.
   */
  lemma {:induction false} BurstsDiffer<S(!new), X(!new)>(step: (S, X) -> S, close: (S, S, nat) -> bool, limit: nat,
      a: S, b: S, xs: seq<X>, ys: seq<X>)
    requires forall s :: close(s, s, 0)
    requires forall s, t, x, y, n: nat ::
      n < limit && close(step(s, x), step(t, y), n) ==> close(s, t, n + 1) && (s == t ==> x == y)
    requires |xs| == |ys| <= limit
    requires Fold(step, a, xs) == Fold(step, b, ys)
    ensures close(a, b, |xs|)
    ensures a == b ==> xs == ys
    decreases |xs|
  {
    if xs != [] {
      BurstsDiffer(step, close, limit, step(a, xs[0]), step(b, ys[0]), xs[1..], ys[1..]);
      assert close(a, b, |xs[1..]| + 1);
      assert xs == [xs[0]] + xs[1..] && ys == [ys[0]] + ys[1..];
    }
  }

  /**
   The burst argument inside a longer message, with the digest taken by `finish`:
   nothing before or after the burst can hide it.
   */
  lemma BurstsDifferInside<S(!new), X(!new)>(step: (S, X) -> S, close: (S, S, nat) -> bool, limit: nat,
      finish: S -> S, s: S, xs: seq<X>, ys: seq<X>, lo: nat, hi: nat)
    requires InjectiveInState(step) && Injective(finish)
    requires forall s :: close(s, s, 0)
    requires forall s, t, x, y, n: nat ::
      n < limit && close(step(s, x), step(t, y), n) ==> close(s, t, n + 1) && (s == t ==> x == y)
    requires AgreeOutside(xs, ys, lo, hi) && hi - lo <= limit
    ensures finish(Fold(step, s, xs)) == finish(Fold(step, s, ys)) ==> xs == ys
  {
    if finish(Fold(step, s, xs)) == finish(Fold(step, s, ys)) {
      var (xm, ym) := (xs[lo..hi], ys[lo..hi]);
      assert xs == xs[..lo] + xm + xs[hi..] && ys == ys[..lo] + ym + ys[hi..];
      FoldConcat(step, s, xs[..lo] + xm, xs[hi..]);
      FoldConcat(step, s, ys[..lo] + ym, ys[hi..]);
      FoldConcat(step, s, xs[..lo], xm);
      FoldConcat(step, s, ys[..lo], ym);
      var start := Fold(step, s, xs[..lo]);
      FoldInjective(step, Fold(step, start, xm), Fold(step, start, ym), xs[hi..]);
      BurstsDiffer(step, close, limit, start, start, xm, ym);
    }
  }

  /**
   The same for a machine that consumes a fixed number of fine inputs per coarse input:
   a window of coarse inputs cannot be hidden if the fine machine detects its expansion.
   */
  lemma WindowDetected<S(!new), X(!new), Y(!new)>(coarse: (S, X) -> S, fine: (S, Y) -> S, expand: X -> seq<Y>,
      width: nat,
      close: (S, S, nat) -> bool, limit: nat, finish: S -> S, s: S, xs: seq<X>, ys: seq<X>, lo: nat, hi: nat)
    requires forall t, x :: coarse(t, x) == Fold(fine, t, expand(x))
    requires Injective(expand) && forall x :: |expand(x)| == width
    requires InjectiveInState(fine) && Injective(finish)
    requires forall s :: close(s, s, 0)
    requires forall s, t, x, y, n: nat ::
      n < limit && close(fine(s, x), fine(t, y), n) ==> close(s, t, n + 1) && (s == t ==> x == y)
    requires AgreeOutside(xs, ys, lo, hi) && (hi - lo) * width <= limit
    ensures finish(Fold(coarse, s, xs)) == finish(Fold(coarse, s, ys)) ==> xs == ys
  {
    var (fx, fy) := (FlatMap(expand, xs), FlatMap(expand, ys));
    FoldExpand(coarse, fine, expand, s, xs);
    FoldExpand(coarse, fine, expand, s, ys);
    FlatMapAgree(expand, xs, ys, lo, hi, width);
    FlatMapConcat(expand, xs[..lo], xs[lo..hi]);
    FlatMapLength(expand, xs[lo..hi], width);
    BurstsDifferInside(fine, close, limit, finish, s, fx, fy, |FlatMap(expand, xs[..lo])|,
      |FlatMap(expand, xs[..lo] + xs[lo..hi])|);
    if fx == fy {
      FlatMapInjective(expand, xs, ys, width);
    }
  }

  ghost predicate Commutative<S(!new)>(op: (S, S) -> S) {
    forall a, b :: op(a, b) == op(b, a)
  }

  ghost predicate Associative<S(!new)>(op: (S, S) -> S) {
    forall a, b, c :: op(op(a, b), c) == op(a, op(b, c))
  }

  /** The inner two of four summands change places. */
  lemma SwapInner<S(!new)>(op: (S, S) -> S, a: S, b: S, c: S, d: S)
    requires Commutative(op) && Associative(op)
    ensures op(op(a, b), op(c, d)) == op(op(a, c), op(b, d))
  {
    calc {
      op(op(a, b), op(c, d));
      op(a, op(b, op(c, d)));
      op(a, op(op(b, c), d));
      op(a, op(op(c, b), d));
      op(a, op(c, op(b, d)));
    }
  }
}
