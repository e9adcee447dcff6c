/** The operators of iter.ts that carry state from one element to the next:
    reducers, running scans, comparisons against the previous element, and
    window buffers. Each is stated over the sequence its input yields. */
module Folds {
  import opened Wrappers
  import opened Operators

  /** `reduce(f, init)`: `res` is replaced by `f(res, x)` for each `x`. */
  function Fold<X, R>(f: (R, X) -> R, acc: R, xs: seq<X>): R
    decreases |xs|
  {
    if xs == [] then acc else Fold(f, f(acc, xs[0]), xs[1..])
  }

  /** Folding one more element applies `f` once more. */
  lemma {:induction false} FoldSnoc<X, R>(f: (R, X) -> R, acc: R, xs: seq<X>, x: X)
    ensures Fold(f, acc, xs + [x]) == f(Fold(f, acc, xs), x)
    decreases |xs|
  {
    if xs == [] {
      assert xs + [x] == [x];
    } else {
      assert (xs + [x])[1..] == xs[1..] + [x];
      FoldSnoc(f, f(acc, xs[0]), xs[1..], x);
    }
  }

  /** `scan(f, init)`: the value of `res` after each element. */
  function Scan<X, R>(f: (R, X) -> R, acc: R, xs: seq<X>): (r: seq<R>)
    ensures |r| == |xs|
    decreases |xs|
  {
    if xs == [] then [] else [f(acc, xs[0])] + Scan(f, f(acc, xs[0]), xs[1..])
  }

  /** The `k`-th output of `scan` is what `reduce` returns on the first
      `k + 1` elements. */
  lemma {:induction false} ScanIsRunningFold<X, R>(f: (R, X) -> R, acc: R, xs: seq<X>)
    ensures forall k :: 0 <= k < |xs| ==> Scan(f, acc, xs)[k] == Fold(f, acc, xs[..k + 1])
    decreases |xs|
  {
    if xs != [] {
      var acc' := f(acc, xs[0]);
      ScanIsRunningFold(f, acc', xs[1..]);
      forall k | 0 <= k < |xs|
        ensures Scan(f, acc, xs)[k] == Fold(f, acc, xs[..k + 1])
      {
        assert xs[..k + 1][1..] == xs[1..][..k];
        if k > 0 {
          assert Scan(f, acc, xs)[k] == Scan(f, acc', xs[1..])[k - 1];
        }
      }
    }
  }

  /** The last output of `scan` is what `reduce` returns. */
  lemma ScanLastIsFold<X, R>(f: (R, X) -> R, acc: R, xs: seq<X>)
    requires xs != []
    ensures Scan(f, acc, xs)[|xs| - 1] == Fold(f, acc, xs)
  {
    ScanIsRunningFold(f, acc, xs);
    assert xs[..|xs|] == xs;
  }

  /** The step of `minBy(cf)`: `x` replaces `res` when it compares below. */
  function MinStep<T>(cf: (T, T) -> int): (T, T) -> T
  {
    (res: T, x: T) => if cf(x, res) < 0 then x else res
  }

  /** The step of `maxBy(cf)`: `x` replaces `res` when it compares above. */
  function MaxStep<T>(cf: (T, T) -> int): (T, T) -> T
  {
    (res: T, x: T) => if cf(x, res) > 0 then x else res
  }

  /** `minBy`/`maxBy` with the given step: the first element is the start
      value; `None` is `null`, returned for an empty input. */
  function Extreme<T>(step: (T, T) -> T, xs: seq<T>): (r: Option<T>)
    ensures r.None? <==> xs == []
  {
    if xs == [] then None else Some(Fold(step, xs[0], xs[1..]))
  }

  /** `minBy(cf)`. */
  function MinBy<T>(cf: (T, T) -> int, xs: seq<T>): Option<T>
  {
    Extreme(MinStep(cf), xs)
  }

  /** `maxBy(cf)`. */
  function MaxBy<T>(cf: (T, T) -> int, xs: seq<T>): Option<T>
  {
    Extreme(MaxStep(cf), xs)
  }

  /** Folding with the step of `minBy` under a comparator that orders by
      `key`: the result has the least key of `res` and `xs`, and is either
      `res` or the first element of `xs` with that key, strictly below `res`. */
  lemma {:induction false} MinStepKey<T>(cf: (T, T) -> int, key: T -> int, res: T, xs: seq<T>)
    requires forall a, b :: cf(a, b) < 0 <==> key(a) < key(b)
    ensures var m := Fold(MinStep(cf), res, xs);
      && key(m) <= key(res)
      && (forall j :: 0 <= j < |xs| ==> key(m) <= key(xs[j]))
      && (m == res || exists i :: 0 <= i < |xs| && m == xs[i] && key(m) < key(res) &&
                                  forall j :: 0 <= j < i ==> key(m) < key(xs[j]))
    decreases |xs|
  {
    if xs != [] {
      var res' := MinStep(cf)(res, xs[0]);
      MinStepKey(cf, key, res', xs[1..]);
      var m := Fold(MinStep(cf), res, xs);
      assert m == Fold(MinStep(cf), res', xs[1..]);
      if m != res {
        if m == res' {
          assert m == xs[0] && key(m) < key(res);
        } else {
          var i :| 0 <= i < |xs[1..]| && m == xs[1..][i] && key(m) < key(res') &&
                   forall j :: 0 <= j < i ==> key(m) < key(xs[1..][j]);
          assert m == xs[i + 1] && forall j :: 0 <= j < i + 1 ==> key(m) < key(xs[j]);
        }
      }
    }
  }

  /** `minBy` under a comparator that orders by `key` returns the first
      element of least key. */
  lemma MinByKey<T>(cf: (T, T) -> int, key: T -> int, xs: seq<T>)
    requires forall a, b :: cf(a, b) < 0 <==> key(a) < key(b)
    requires xs != []
    ensures var m := MinBy(cf, xs).value;
      && (forall j :: 0 <= j < |xs| ==> key(m) <= key(xs[j]))
      && exists i :: 0 <= i < |xs| && m == xs[i] && forall j :: 0 <= j < i ==> key(m) < key(xs[j])
  {
    MinStepKey(cf, key, xs[0], xs[1..]);
    var m := MinBy(cf, xs).value;
    if m != xs[0] {
      var i :| 0 <= i < |xs[1..]| && m == xs[1..][i] && key(m) < key(xs[0]) &&
               forall j :: 0 <= j < i ==> key(m) < key(xs[1..][j]);
      assert m == xs[i + 1] && forall j :: 0 <= j < i + 1 ==> key(m) < key(xs[j]);
    } else {
      assert m == xs[0];
    }
  }

  /** Folding with the step of `maxBy` under a comparator that orders by
      `key`: the mirror image of `MinStepKey`. */
  lemma {:induction false} MaxStepKey<T>(cf: (T, T) -> int, key: T -> int, res: T, xs: seq<T>)
    requires forall a, b :: cf(a, b) > 0 <==> key(a) > key(b)
    ensures var m := Fold(MaxStep(cf), res, xs);
      && key(m) >= key(res)
      && (forall j :: 0 <= j < |xs| ==> key(m) >= key(xs[j]))
      && (m == res || exists i :: 0 <= i < |xs| && m == xs[i] && key(m) > key(res) &&
                                  forall j :: 0 <= j < i ==> key(m) > key(xs[j]))
    decreases |xs|
  {
    if xs != [] {
      var res' := MaxStep(cf)(res, xs[0]);
      MaxStepKey(cf, key, res', xs[1..]);
      var m := Fold(MaxStep(cf), res, xs);
      assert m == Fold(MaxStep(cf), res', xs[1..]);
      if m != res {
        if m == res' {
          assert m == xs[0] && key(m) > key(res);
        } else {
          var i :| 0 <= i < |xs[1..]| && m == xs[1..][i] && key(m) > key(res') &&
                   forall j :: 0 <= j < i ==> key(m) > key(xs[1..][j]);
          assert m == xs[i + 1] && forall j :: 0 <= j < i + 1 ==> key(m) > key(xs[j]);
        }
      }
    }
  }

  /** `maxBy` under a comparator that orders by `key` returns the first
      element of greatest key. */
  lemma MaxByKey<T>(cf: (T, T) -> int, key: T -> int, xs: seq<T>)
    requires forall a, b :: cf(a, b) > 0 <==> key(a) > key(b)
    requires xs != []
    ensures var m := MaxBy(cf, xs).value;
      && (forall j :: 0 <= j < |xs| ==> key(m) >= key(xs[j]))
      && exists i :: 0 <= i < |xs| && m == xs[i] && forall j :: 0 <= j < i ==> key(m) > key(xs[j])
  {
    MaxStepKey(cf, key, xs[0], xs[1..]);
    var m := MaxBy(cf, xs).value;
    if m != xs[0] {
      var i :| 0 <= i < |xs[1..]| && m == xs[1..][i] && key(m) > key(xs[0]) &&
               forall j :: 0 <= j < i ==> key(m) > key(xs[1..][j]);
      assert m == xs[i + 1] && forall j :: 0 <= j < i + 1 ==> key(m) > key(xs[j]);
    } else {
      assert m == xs[0];
    }
  }

  /** The single loop of `minMaxBy(cf)`, updating `min` and `max` together. */
  function MinMaxFrom<T>(cf: (T, T) -> int, lo: T, hi: T, xs: seq<T>): (T, T)
    decreases |xs|
  {
    if xs == [] then (lo, hi)
    else MinMaxFrom(cf, MinStep(cf)(lo, xs[0]), MaxStep(cf)(hi, xs[0]), xs[1..])
  }

  /** The joint loop computes the two folds side by side. */
  lemma {:induction false} MinMaxFromSplit<T>(cf: (T, T) -> int, lo: T, hi: T, xs: seq<T>)
    ensures MinMaxFrom(cf, lo, hi, xs) == (Fold(MinStep(cf), lo, xs), Fold(MaxStep(cf), hi, xs))
    decreases |xs|
  {
    if xs != [] {
      MinMaxFromSplit(cf, MinStep(cf)(lo, xs[0]), MaxStep(cf)(hi, xs[0]), xs[1..]);
    }
  }

  /** `minMaxBy(cf)`: the same pair as `minBy` and `maxBy` separately;
      `[null, null]` on empty input. */
  function MinMaxBy<T>(cf: (T, T) -> int, xs: seq<T>): (r: (Option<T>, Option<T>))
    ensures r == (MinBy(cf, xs), MaxBy(cf, xs))
  {
    if xs == [] then (None, None)
    else
      MinMaxFromSplit(cf, xs[0], xs[0], xs[1..]);
      var (lo, hi) := MinMaxFrom(cf, xs[0], xs[0], xs[1..]);
      (Some(lo), Some(hi))
  }

  /** Dropping the head of a prefix is a prefix of the tail. */
  lemma TailOfPrefix<T>(xs: seq<T>)
    ensures forall n :: 0 < n <= |xs| ==> xs[..n][1..] == xs[1..][..n - 1]
  {
  }

  /** `minByScan`/`maxByScan` with the given step, as written: on empty
      input `null`; otherwise the running extreme after each element but the
      first. */
  function ExtremeScan<T>(step: (T, T) -> T, xs: seq<T>): (r: seq<Option<T>>)
    ensures xs == [] ==> r == [None]
    ensures xs != [] ==> |r| == |xs| - 1
  {
    if xs == [] then [None] else Wrap(Scan(step, xs[0], xs[1..]))
  }

  /** The `k`-th value of the scans as written is the extreme of the first
      `k + 2` elements. */
  lemma ExtremeScanAt<T>(step: (T, T) -> T, xs: seq<T>)
    ensures forall k :: 0 <= k < |xs| - 1 ==> ExtremeScan(step, xs)[k] == Extreme(step, xs[..k + 2])
  {
    if xs != [] {
      ScanIsRunningFold(step, xs[0], xs[1..]);
      TailOfPrefix(xs);
      WrapAt(Scan(step, xs[0], xs[1..]));
    }
  }

  /** `minByScan`/`maxByScan` as evidently meant: the running extreme after
      every element, first included. */
  function ExtremeScanIntended<T>(step: (T, T) -> T, xs: seq<T>): (r: seq<T>)
    ensures |r| == |xs|
    ensures forall k :: 0 <= k < |xs| ==> Some(r[k]) == Extreme(step, xs[..k + 1])
  {
    if xs == [] then []
    else
      ScanIsRunningFold(step, xs[0], xs[1..]);
      TailOfPrefix(xs);
      [xs[0]] + Scan(step, xs[0], xs[1..])
  }

  /** The scans as written lose the first element's extreme: one element in
      gives nothing out, and no element in gives `null` out. */
  lemma ExtremeScanDropsFirst(cf: (int, int) -> int)
    ensures ExtremeScan(MinStep(cf), [5]) == []
    ensures ExtremeScanIntended(MinStep(cf), [5]) == [5]
    ensures ExtremeScan(MinStep(cf), []) == [None]
  {
  }

  /** `minByScan(cf)`. */
  function MinByScan<T>(cf: (T, T) -> int, xs: seq<T>): seq<Option<T>>
  {
    ExtremeScan(MinStep(cf), xs)
  }

  /** `maxByScan(cf)`. */
  function MaxByScan<T>(cf: (T, T) -> int, xs: seq<T>): seq<Option<T>>
  {
    ExtremeScan(MaxStep(cf), xs)
  }

  /** `pairwise()`: each element with its successor. */
  function Pairwise<T>(xs: seq<T>): (r: seq<(T, T)>)
    ensures |r| == if |xs| < 2 then 0 else |xs| - 1
    decreases |xs|
  {
    if |xs| < 2 then [] else [(xs[0], xs[1])] + Pairwise(xs[1..])
  }

  /** The `i`-th pair of `pairwise()` is the `i`-th element with the next. */
  lemma {:induction false} PairwiseAt<T>(xs: seq<T>)
    ensures forall i :: 0 <= i < |Pairwise(xs)| ==> Pairwise(xs)[i] == (xs[i], xs[i + 1])
    decreases |xs|
  {
    if |xs| >= 2 {
      PairwiseAt(xs[1..]);
      forall i | 1 <= i < |Pairwise(xs)|
        ensures Pairwise(xs)[i] == (xs[i], xs[i + 1])
      {
        assert Pairwise(xs)[i] == Pairwise(xs[1..])[i - 1];
      }
    }
  }

  /** The loop of `distinctUntilChanged(comp)` after the first element:
      `x` is yielded, and becomes the reference, when it does not compare
      equal to the last yielded element. */
  function DistinctFrom<T>(comp: (T, T) -> bool, last: T, xs: seq<T>): seq<T>
    decreases |xs|
  {
    if xs == [] then []
    else if !comp(xs[0], last) then [xs[0]] + DistinctFrom(comp, xs[0], xs[1..])
    else DistinctFrom(comp, last, xs[1..])
  }

  /** What the loop yields comes from its input, and no yielded element
      compares equal to the one yielded before it (or to `last`). */
  lemma {:induction false} DistinctFromSpec<T>(comp: (T, T) -> bool, last: T, xs: seq<T>)
    ensures var r := DistinctFrom(comp, last, xs);
      && |r| <= |xs| && multiset(r) <= multiset(xs)
      && (r != [] ==> !comp(r[0], last))
      && (forall i :: 0 < i < |r| ==> !comp(r[i], r[i - 1]))
    decreases |xs|
  {
    if xs != [] {
      assert xs == [xs[0]] + xs[1..];
      DistinctFromSpec(comp, xs[0], xs[1..]);
      DistinctFromSpec(comp, last, xs[1..]);
    }
  }

  /** `distinctUntilChanged(comp)`: the first element, then every element
      that differs from the one yielded before it. */
  function DistinctUntilChanged<T>(comp: (T, T) -> bool, xs: seq<T>): seq<T>
  {
    if xs == [] then [] else [xs[0]] + DistinctFrom(comp, xs[0], xs[1..])
  }

  /** The output of `distinctUntilChanged(comp)` comes from its input, is
      empty only for an empty input, starts with the first element, and
      has no two neighbours that `comp` finds equal. */
  lemma DistinctSpec<T>(comp: (T, T) -> bool, xs: seq<T>)
    ensures var r := DistinctUntilChanged(comp, xs);
      && |r| <= |xs| && multiset(r) <= multiset(xs)
      && (xs != [] <==> r != [])
      && (xs != [] ==> r[0] == xs[0])
      && (forall i :: 0 < i < |r| ==> !comp(r[i], r[i - 1]))
  {
    if xs != [] {
      assert xs == [xs[0]] + xs[1..];
      DistinctFromSpec(comp, xs[0], xs[1..]);
      var r := DistinctUntilChanged(comp, xs);
      var t := DistinctFrom(comp, xs[0], xs[1..]);
      forall i | 0 < i < |r|
        ensures !comp(r[i], r[i - 1])
      {
        if i > 1 {
          assert r[i] == t[i - 1] && r[i - 1] == t[i - 2];
        }
      }
    }
  }

  /** With the default comparison (`===`), only repeats are dropped: every
      input value is still in the output. */
  lemma {:induction false} DistinctFromKeepsValues<T>(comp: (T, T) -> bool, last: T, xs: seq<T>)
    requires forall a, b :: comp(a, b) <==> a == b
    ensures forall x :: x in xs ==> x in DistinctFrom(comp, last, xs) || x == last
    decreases |xs|
  {
    if xs != [] {
      DistinctFromKeepsValues(comp, xs[0], xs[1..]);
      DistinctFromKeepsValues(comp, last, xs[1..]);
    }
  }

  /** `distinctUntilChanged()` keeps every value of its input. */
  lemma DistinctKeepsValues<T>(comp: (T, T) -> bool, xs: seq<T>)
    requires forall a, b :: comp(a, b) <==> a == b
    ensures forall x :: x in xs <==> x in DistinctUntilChanged(comp, xs)
  {
    if xs != [] {
      DistinctFromKeepsValues(comp, xs[0], xs[1..]);
      DistinctSpec(comp, xs);
      assert xs == [xs[0]] + xs[1..];
      assert forall x :: x in DistinctUntilChanged(comp, xs) ==> x in multiset(xs);
    }
  }

  /** `grouped(n, step)` from a partial window `group`: each element is
      pushed; a window of exactly `n` is emitted and then `step` shifts drop
      its front (a shift on an empty window does nothing). */
  function GroupedFrom<T>(n: int, step: int, group: seq<T>, xs: seq<T>): seq<seq<T>>
    decreases |xs|
  {
    if xs == [] then []
    else
      var g := group + [xs[0]];
      if |g| == n then [g] + GroupedFrom(n, step, g[Clamp(step, |g|)..], xs[1..])
      else GroupedFrom(n, step, g, xs[1..])
  }

  /** Only full windows are emitted: each holds exactly `n` elements. */
  lemma {:induction false} GroupedFromFull<T>(n: int, step: int, group: seq<T>, xs: seq<T>)
    ensures forall k :: 0 <= k < |GroupedFrom(n, step, group, xs)| ==> |GroupedFrom(n, step, group, xs)[k]| == n
    decreases |xs|
  {
    if xs != [] {
      var g := group + [xs[0]];
      if |g| == n {
        GroupedFromFull(n, step, g[Clamp(step, |g|)..], xs[1..]);
      } else {
        GroupedFromFull(n, step, g, xs[1..]);
      }
    }
  }

  /** `grouped(n, step)`. */
  function Grouped<T>(n: int, step: int, xs: seq<T>): seq<seq<T>>
  {
    GroupedFrom(n, step, [], xs)
  }

  /** The windows of width `n` starting every `s` elements, for a reference:
      the `k`-th starts at `k * s`, and only whole windows count. */
  function Windows<T>(n: nat, s: nat, xs: seq<T>): (r: seq<seq<T>>)
    requires 1 <= s <= n
    ensures |xs| < n <==> r == []
    decreases |xs|
  {
    if |xs| < n then [] else [xs[..n]] + Windows(n, s, xs[s..])
  }

  /** The `k`-th window is the slice of width `n` at `k * s`. */
  lemma {:induction false} WindowsAt<T>(n: nat, s: nat, xs: seq<T>)
    requires 1 <= s <= n
    ensures var r := Windows(n, s, xs);
      forall k :: 0 <= k < |r| ==> k * s + n <= |xs| && r[k] == xs[k * s..k * s + n]
    decreases |xs|
  {
    var r := Windows(n, s, xs);
    if |xs| >= n {
      var r' := Windows(n, s, xs[s..]);
      WindowsAt(n, s, xs[s..]);
      assert r == [xs[..n]] + r';
      forall k | 0 <= k < |r|
        ensures k * s + n <= |xs| && r[k] == xs[k * s..k * s + n]
      {
        if k > 0 {
          WindowShift(n, s, xs, r', k);
        }
      }
    }
  }

  /** One step of `WindowsAt`: the `k`-th window of `xs` is the `(k - 1)`-th
      of `xs[s..]`. */
  lemma WindowShift<T>(n: nat, s: nat, xs: seq<T>, r': seq<seq<T>>, k: nat)
    requires 1 <= s <= n <= |xs| && 0 < k <= |r'|
    requires (k - 1) * s + n <= |xs| - s && r'[k - 1] == xs[s..][(k - 1) * s..(k - 1) * s + n]
    ensures k * s + n <= |xs| && r'[k - 1] == xs[k * s..k * s + n]
  {
    var a := (k - 1) * s;
    MulSucc(k - 1, s);
    assert k * s == s + a;
    assert xs[s..][a..a + n] == xs[s + a..s + a + n];
  }

  /** The windows stop at the last one that fits. */
  lemma {:induction false} WindowsEnd<T>(n: nat, s: nat, xs: seq<T>)
    requires 1 <= s <= n
    ensures |Windows(n, s, xs)| * s + n > |xs|
    decreases |xs|
  {
    if |xs| >= n {
      var r' := Windows(n, s, xs[s..]);
      WindowsEnd(n, s, xs[s..]);
      assert |Windows(n, s, xs)| == |r'| + 1;
      MulSucc(|r'|, s);
    }
  }

  /** From a partial window, `grouped` emits exactly the whole windows of
      what is buffered followed by what is left. */
  lemma {:induction false} GroupedFromIsWindows<T>(n: int, step: int, group: seq<T>, xs: seq<T>)
    requires 1 <= n && 1 <= step && |group| < n
    ensures GroupedFrom(n, step, group, xs) == Windows(n, if step < n then step else n, group + xs)
    decreases |xs|
  {
    var s := if step < n then step else n;
    if xs == [] {
      assert group + xs == group;
    } else {
      var g := group + [xs[0]];
      assert g + xs[1..] == group + xs;
      if |g| == n {
        GroupedFromIsWindows(n, step, g[s..], xs[1..]);
        assert (group + xs)[..n] == g;
        assert (group + xs)[s..] == g[s..] + xs[1..];
      } else {
        GroupedFromIsWindows(n, step, g, xs[1..]);
      }
    }
  }

  /** For `1 <= n` and `1 <= step`, `grouped(n, step)` yields the windows of
      width `n` starting every `min(step, n)` elements, and no partial one. */
  lemma GroupedIsWindows<T>(n: int, step: int, xs: seq<T>)
    requires 1 <= n && 1 <= step
    ensures Grouped(n, step, xs) == Windows(n, if step < n then step else n, xs)
  {
    GroupedFromIsWindows(n, step, [], xs);
    assert [] + xs == xs;
  }

  /** Once the window holds `n` or more, it only grows, so nothing more is
      emitted. */
  lemma {:induction false} GroupedFromOverfull<T>(n: int, step: int, group: seq<T>, xs: seq<T>)
    requires |group| >= n
    ensures GroupedFrom(n, step, group, xs) == []
    decreases |xs|
  {
    if xs != [] {
      GroupedFromOverfull(n, step, group + [xs[0]], xs[1..]);
    }
  }

  /** With `step <= 0` nothing is ever shifted out: at most the first window
      is emitted; with `n <= 0` nothing is. */
  lemma {:induction false} GroupedFromNoStep<T>(n: int, step: int, group: seq<T>, xs: seq<T>)
    requires step <= 0 && |group| < n
    ensures GroupedFrom(n, step, group, xs) == if |group + xs| >= n then [(group + xs)[..n]] else []
    decreases |xs|
  {
    if xs == [] {
      assert group + xs == group;
    } else {
      var g := group + [xs[0]];
      assert g + xs[1..] == group + xs;
      if |g| == n {
        GroupedFromOverfull(n, step, g, xs[1..]);
        assert (group + xs)[..n] == g;
      } else {
        GroupedFromNoStep(n, step, g, xs[1..]);
      }
    }
  }

  /** `grouped(n, step)` with a step of zero or less emits the first window
      alone; with a width of zero or less it emits nothing. */
  lemma GroupedDegenerate<T>(n: int, step: int, xs: seq<T>)
    ensures n <= 0 ==> Grouped(n, step, xs) == []
    ensures 1 <= n && step <= 0 ==> Grouped(n, step, xs) == if |xs| >= n then [xs[..n]] else []
  {
    if n <= 0 {
      GroupedFromOverfull(n, step, [], xs);
    } else if step <= 0 {
      GroupedFromNoStep(n, step, [], xs);
      assert [] + xs == xs;
    }
  }

  /** `enumerate(xs)` from counter `i`. */
  function EnumerateFrom<T>(i: int, xs: seq<T>): (r: seq<(int, T)>)
    ensures |r| == |xs|
    decreases |xs|
  {
    if xs == [] then [] else [(i, xs[0])] + EnumerateFrom(i + 1, xs[1..])
  }

  /** The `k`-th pair of `enumerate` from counter `i` is `(i + k, xs[k])`. */
  lemma {:induction false} EnumerateFromAt<T>(i: int, xs: seq<T>)
    ensures forall k :: 0 <= k < |xs| ==> EnumerateFrom(i, xs)[k] == (i + k, xs[k])
    decreases |xs|
  {
    if xs != [] {
      EnumerateFromAt(i + 1, xs[1..]);
      forall k | 1 <= k < |xs|
        ensures EnumerateFrom(i, xs)[k] == (i + k, xs[k])
      {
        assert EnumerateFrom(i, xs)[k] == EnumerateFrom(i + 1, xs[1..])[k - 1];
      }
    }
  }

  /** `enumerate(xs)`: each element with its index. */
  function Enumerate<T>(xs: seq<T>): seq<(int, T)>
  {
    EnumerateFrom(0, xs)
  }

  /** The key predicate of one group of `groupBy(f)`. */
  function HasKey<T, K(==)>(f: T -> K, k: K): T -> bool
  {
    x => f(x) == k
  }

  /** `groupBy(f)`: each element is pushed onto the array of its key; a key
      gets its array when first seen. */
  function GroupBy<T, K(==, !new)>(f: T -> K, xs: seq<T>): map<K, seq<T>>
    decreases |xs|
  {
    if xs == [] then map[]
    else
      var x := xs[|xs| - 1];
      Push(GroupBy(f, xs[..|xs| - 1]), f(x), x)
  }

  /** One element pushed onto the array of its key, which is created empty
      when the key is new. */
  function Push<T, K>(m: map<K, seq<T>>, key: K, x: T): (r: map<K, seq<T>>)
    ensures r.Keys == m.Keys + {key}
    ensures r[key] == (if key in m then m[key] else []) + [x]
    ensures forall k :: k in m && k != key ==> r[k] == m[k]
  {
    m[key := (if key in m then m[key] else []) + [x]]
  }

  /** The keys of `groupBy(f)` are the keys of the elements. */
  lemma {:induction false} GroupByKeys<T, K(!new)>(f: T -> K, xs: seq<T>)
    ensures forall k :: k in GroupBy(f, xs) <==> exists i :: 0 <= i < |xs| && f(xs[i]) == k
    decreases |xs|
  {
    if xs != [] {
      var init := xs[..|xs| - 1];
      GroupByKeys(f, init);
      var m := GroupBy(f, init);
      forall k
        ensures k in GroupBy(f, xs) <==> exists i :: 0 <= i < |xs| && f(xs[i]) == k
      {
        if k in m {
          var i :| 0 <= i < |init| && f(init[i]) == k;
          assert f(xs[i]) == k;
        }
        if i :| 0 <= i < |xs| && f(xs[i]) == k {
          if i < |init| {
            assert f(init[i]) == k;
          }
        }
      }
    }
  }

  /** Each key's array in `groupBy(f)` holds the elements with that key, in
      input order. */
  lemma {:induction false} GroupByIsFilter<T, K(!new)>(f: T -> K, xs: seq<T>)
    ensures forall k :: k in GroupBy(f, xs) ==> GroupBy(f, xs)[k] == Filter(HasKey(f, k), xs) && GroupBy(f, xs)[k] != []
    decreases |xs|
  {
    if xs != [] {
      var init := xs[..|xs| - 1];
      var x := xs[|xs| - 1];
      GroupByIsFilter(f, init);
      GroupByKeys(f, init);
      var m := GroupBy(f, init);
      var r := GroupBy(f, xs);
      assert xs == init + [x];
      forall k | k in r
        ensures r[k] == Filter(HasKey(f, k), xs) && r[k] != []
      {
        FilterSnoc(HasKey(f, k), init, x);
        if k !in m {
          FilterNone(HasKey(f, k), init);
        }
      }
    }
  }

  /** Nothing passes, nothing comes out. */
  lemma FilterNone<T>(p: T -> bool, xs: seq<T>)
    requires forall i :: 0 <= i < |xs| ==> !p(xs[i])
    ensures Filter(p, xs) == []
  {
  }

  /** Filtering one more element adds it at the end exactly when it passes. */
  lemma {:induction false} FilterSnoc<T>(p: T -> bool, xs: seq<T>, x: T)
    ensures Filter(p, xs + [x]) == Filter(p, xs) + (if p(x) then [x] else [])
    decreases |xs|
  {
    if xs == [] {
      assert xs + [x] == [x];
    } else {
      assert (xs + [x])[1..] == xs[1..] + [x];
      FilterSnoc(p, xs[1..], x);
    }
  }
}
