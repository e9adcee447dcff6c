/** The operators of iter.ts as the loops they are: each walks its input
    with `for...of` (asking the input for its iterator, pulling until done,
    calling `return()` when it leaves early) and is proved to yield, or
    return, what the matching function of Operators, Folds or Constructors
    states. A generator is modelled as run to its end by its consumer: its
    yields are collected into the `out` sequence. */
module Generators {
  import opened Wrappers
  import opened Cursors
  import opened Common
  import opened Operators
  import opened Folds
  import opened Constructors
  import opened LoopInvariants

  /** A `for...of` loop over `xs` has taken `i` of the elements `e` that
      `xs` had when the loop began, and the branches off its upstream path
      still yield `off`: the loop walks `it`, which is `xs` itself for an
      iterator and a fresh array iterator otherwise. */
  ghost predicate Walking<T>(xs: Iterable<T>, it: Iterable<T>, e: seq<T>, i: nat, off: seq<seq<T>>)
    reads ReprOf(xs), ReprOf(it)
  {
    && Wf(xs) && !xs.Branch? && it.Iter? && Wf(it) && IsIterator(it)
    && (IsIterator(xs) ==> it == xs)
    && (!IsIterator(xs) ==> Elements(xs) == e && !it.cursor.closable)
    && i <= |e| && Elements(it) == Suffix(e, i)
    && OffPathOf(xs) == off
  }

  /** The elements of `e` from the `i`-th on. */
  ghost function Suffix<T>(e: seq<T>, i: nat): (r: seq<T>)
    decreases |e| - i
  {
    if i >= |e| then [] else [e[i]] + Suffix(e, i + 1)
  }

  lemma {:induction false} SuffixIsSlice<T>(e: seq<T>, i: nat)
    requires i <= |e|
    ensures Suffix(e, i) == e[i..]
    decreases |e| - i
  {
    if i < |e| {
      SuffixIsSlice(e, i + 1);
      assert e[i..] == [e[i]] + e[i + 1..];
    }
  }

  /** What is left of `xs` after a `for...of` loop over its elements `e`
      ran to the end: nothing of an iterator, everything of an array. */
  ghost predicate WalkedOut<T>(xs: Iterable<T>, e: seq<T>)
    reads ReprOf(xs)
    requires Wf(xs)
  {
    Elements(xs) == if IsIterator(xs) then [] else e
  }

  /** What is left of `xs` after a `for...of` loop over its elements `e`
      was left at `e[k]`: nothing of a generator (its `return()` finished
      it), the elements after `e[k]` of an array iterator, everything of an
      array. */
  ghost predicate LeftAt<T>(xs: Iterable<T>, e: seq<T>, k: nat)
    reads ReprOf(xs)
    requires Wf(xs)
  {
    && k < |e|
    && Elements(xs) == if !IsIterator(xs) then e else if Closable(xs) then [] else e[k + 1..]
  }

  /** The start of a `for...of` loop: `xs[Symbol.iterator]()`. */
  method StartWalk<T>(xs: Iterable<T>) returns (it: Iterable<T>)
    requires Wf(xs) && !xs.Branch?
    ensures Wf(xs) && Walking(xs, it, Elements(xs), 0, OffPathOf(xs))
    ensures !IsIterator(xs) ==> fresh(it.cursor)
  {
    it := GetIterator(xs);
    SuffixIsSlice(Elements(xs), 0);
  }

  /** One step of a `for...of` loop: the next element, if any; when there
      is none, the loop ran to the end. */
  method Step<T>(xs: Iterable<T>, it: Iterable<T>, ghost e: seq<T>, ghost i: nat, ghost off: seq<seq<T>>)
      returns (r: Option<T>)
    requires Walking(xs, it, e, i, off)
    modifies ReprOf(it)
    ensures i < |e| ==> r == Some(e[i]) && Walking(xs, it, e, i + 1, off)
    ensures i == |e| ==> r == None && Walking(xs, it, e, i, off)
    ensures i == |e| ==> Wf(xs) && WalkedOut(xs, e) && OffPathOf(xs) == off
  {
    SuffixIsSlice(e, i);
    r := Pull(it);
    if i < |e| {
      assert e[i..][1..] == e[i + 1..];
      SuffixIsSlice(e, i + 1);
    }
  }

  /** Leaving a `for...of` loop early, after `e[k]`. */
  method Leave<T>(xs: Iterable<T>, it: Iterable<T>, ghost e: seq<T>, ghost k: nat, ghost off: seq<seq<T>>)
    requires Walking(xs, it, e, k + 1, off)
    modifies ReprOf(it)
    ensures Wf(xs) && LeftAt(xs, e, k) && OffPathOf(xs) == off
    ensures Wf(it) && Elements(it) == if Closable(it) then [] else e[k + 1..]
    ensures (IsIterator(xs) ==> it == xs) && (!IsIterator(xs) ==> Elements(xs) == e)
  {
    SuffixIsSlice(e, k + 1);
    Close(it);
  }

  /** `reduce(f, init)`. */
  method ReduceOf<X, R>(f: (R, X) -> R, init: R, xs: Iterable<X>) returns (res: R)
    requires Wf(xs) && !xs.Branch?
    modifies ReprOf(xs)
    ensures Wf(xs) && WalkedOut(xs, old(Elements(xs))) && OffPathOf(xs) == old(OffPathOf(xs))
    ensures res == Fold(f, init, old(Elements(xs)))
  {
    ghost var e, off := Elements(xs), OffPathOf(xs);
    var it := StartWalk(xs);
    ghost var i := 0;
    res := init;
    while true
      invariant Walking(xs, it, e, i, off)
      invariant !IsIterator(xs) ==> fresh(it.cursor)
      invariant FoldInv(f, e, i, res, Fold(f, init, e))
      decreases |e| - i
    {
      var r := Step(xs, it, e, i, off);
      if r.None? {
        FoldDone(f, e, res, Fold(f, init, e));
        break;
      }
      FoldNext(f, e, i, res, Fold(f, init, e));
      res := f(res, r.value);
      i := i + 1;
    }
  }

  /** `scan(f, init)`: the value of `res` after each element. */
  method ScanOf<X, R>(f: (R, X) -> R, init: R, xs: Iterable<X>) returns (out: seq<R>)
    requires Wf(xs) && !xs.Branch?
    modifies ReprOf(xs)
    ensures Wf(xs) && WalkedOut(xs, old(Elements(xs))) && OffPathOf(xs) == old(OffPathOf(xs))
    ensures out == Scan(f, init, old(Elements(xs)))
  {
    ghost var e, off := Elements(xs), OffPathOf(xs);
    assert e == old(Elements(xs)) && off == old(OffPathOf(xs));
    ghost var whole := Scan(f, init, e);
    var it := StartWalk(xs);
    ghost var i := 0;
    var res := init;
    out := [];
    while true
      invariant Walking(xs, it, e, i, off)
      invariant !IsIterator(xs) ==> fresh(it.cursor)
      invariant ScanInv(f, e, i, res, out, whole)
      decreases |e| - i
    {
      var r := Step(xs, it, e, i, off);
      if r.None? {
        ScanDone(f, e, res, out, whole);
        break;
      }
      ScanNext(f, e, i, res, out, whole);
      res := f(res, r.value);
      out := out + [res];
      i := i + 1;
    }
  }

  /** `length()`. */
  method LengthOf<X>(xs: Iterable<X>) returns (c: nat)
    requires Wf(xs) && !xs.Branch?
    modifies ReprOf(xs)
    ensures Wf(xs) && WalkedOut(xs, old(Elements(xs))) && OffPathOf(xs) == old(OffPathOf(xs))
    ensures c == |old(Elements(xs))|
  {
    ghost var e, off := Elements(xs), OffPathOf(xs);
    var it := StartWalk(xs);
    c := 0;
    while true
      invariant Walking(xs, it, e, c, off)
      invariant !IsIterator(xs) ==> fresh(it.cursor)
      decreases |e| - c
    {
      var r := Step(xs, it, e, c, off);
      if r.None? {
        break;
      }
      c := c + 1;
    }
  }

  /** `some(p)`: stops at the first element satisfying `p`, leaving the
      loop there. */
  method SomeOf<X>(p: X -> bool, xs: Iterable<X>) returns (r: bool)
    requires Wf(xs) && !xs.Branch?
    modifies ReprOf(xs)
    ensures Wf(xs) && OffPathOf(xs) == old(OffPathOf(xs))
    ensures r == Any(p, old(Elements(xs)))
    ensures r ==> FindIndex(p, old(Elements(xs))) >= 0 && LeftAt(xs, old(Elements(xs)), FindIndex(p, old(Elements(xs))))
    ensures !r ==> WalkedOut(xs, old(Elements(xs)))
  {
    ghost var e, off := Elements(xs), OffPathOf(xs);
    var it := StartWalk(xs);
    ghost var i := 0;
    while true
      invariant Walking(xs, it, e, i, off)
      invariant !IsIterator(xs) ==> fresh(it.cursor)
      invariant NoneYet(p, e, i)
      decreases |e| - i
    {
      var x := Step(xs, it, e, i, off);
      if x.None? {
        NoMatch(p, e);
        return false;
      }
      if p(x.value) {
        FirstMatch(p, e, i);
        Leave(xs, it, e, i, off);
        return true;
      }
      i := i + 1;
    }
  }

  /** `every(p)`: stops at the first element failing `p`, leaving the loop
      there. */
  method EveryOf<X>(p: X -> bool, xs: Iterable<X>) returns (r: bool)
    requires Wf(xs) && !xs.Branch?
    modifies ReprOf(xs)
    ensures Wf(xs) && OffPathOf(xs) == old(OffPathOf(xs))
    ensures r == All(p, old(Elements(xs)))
    ensures !r ==> FindIndex(x => !p(x), old(Elements(xs))) >= 0 && LeftAt(xs, old(Elements(xs)), FindIndex(x => !p(x), old(Elements(xs))))
    ensures r ==> WalkedOut(xs, old(Elements(xs)))
  {
    ghost var e, off := Elements(xs), OffPathOf(xs);
    assert e == old(Elements(xs)) && off == old(OffPathOf(xs));
    var it := StartWalk(xs);
    ghost var i := 0;
    while true
      invariant Walking(xs, it, e, i, off)
      invariant !IsIterator(xs) ==> fresh(it.cursor)
      invariant NoneYet(x => !p(x), e, i)
      decreases |e| - i
    {
      var x := Step(xs, it, e, i, off);
      if x.None? {
        NoFail(p, e);
        return true;
      }
      if !p(x.value) {
        FirstFail(p, e, i);
        Leave(xs, it, e, i, off);
        return false;
      }
      i := i + 1;
    }
  }

  /** `find(p)`: the first element satisfying `p`; `None` is `null`. */
  method FindOf<X>(p: X -> bool, xs: Iterable<X>) returns (r: Option<X>)
    requires Wf(xs) && !xs.Branch?
    modifies ReprOf(xs)
    ensures Wf(xs) && OffPathOf(xs) == old(OffPathOf(xs))
    ensures r == Find(p, old(Elements(xs)))
    ensures r.Some? ==> LeftAt(xs, old(Elements(xs)), FindIndex(p, old(Elements(xs))))
    ensures r.None? ==> WalkedOut(xs, old(Elements(xs)))
  {
    ghost var e, off := Elements(xs), OffPathOf(xs);
    assert e == old(Elements(xs)) && off == old(OffPathOf(xs));
    var it := StartWalk(xs);
    ghost var i := 0;
    while true
      invariant Walking(xs, it, e, i, off)
      invariant !IsIterator(xs) ==> fresh(it.cursor)
      invariant NoneYet(p, e, i)
      decreases |e| - i
    {
      var x := Step(xs, it, e, i, off);
      if x.None? {
        NoMatch(p, e);
        return None;
      }
      if p(x.value) {
        FirstMatch(p, e, i);
        Leave(xs, it, e, i, off);
        return x;
      }
      i := i + 1;
    }
  }

  /** `findIndex(p)`: the index of the first element satisfying `p`, or
      -1. */
  method FindIndexOf<X>(p: X -> bool, xs: Iterable<X>) returns (r: int)
    requires Wf(xs) && !xs.Branch?
    modifies ReprOf(xs)
    ensures Wf(xs) && OffPathOf(xs) == old(OffPathOf(xs))
    ensures r == FindIndex(p, old(Elements(xs)))
    ensures r >= 0 ==> LeftAt(xs, old(Elements(xs)), r)
    ensures r < 0 ==> WalkedOut(xs, old(Elements(xs)))
  {
    ghost var e, off := Elements(xs), OffPathOf(xs);
    var it := StartWalk(xs);
    var i := 0;
    while true
      invariant Walking(xs, it, e, i, off)
      invariant !IsIterator(xs) ==> fresh(it.cursor)
      invariant NoneYet(p, e, i)
      decreases |e| - i
    {
      var x := Step(xs, it, e, i, off);
      if x.None? {
        NoMatch(p, e);
        return -1;
      }
      if p(x.value) {
        FirstMatch(p, e, i);
        Leave(xs, it, e, i, off);
        return i;
      }
      i := i + 1;
    }
  }

  /** `map(f)`. */
  method MapOf<A, B>(f: A -> B, xs: Iterable<A>) returns (out: seq<B>)
    requires Wf(xs) && !xs.Branch?
    modifies ReprOf(xs)
    ensures Wf(xs) && WalkedOut(xs, old(Elements(xs))) && OffPathOf(xs) == old(OffPathOf(xs))
    ensures out == Map(f, old(Elements(xs)))
  {
    ghost var e, off := Elements(xs), OffPathOf(xs);
    var it := StartWalk(xs);
    ghost var i := 0;
    out := [];
    while true
      invariant Walking(xs, it, e, i, off)
      invariant !IsIterator(xs) ==> fresh(it.cursor)
      invariant MapInv(f, e, i, out)
      decreases |e| - i
    {
      var x := Step(xs, it, e, i, off);
      if x.None? {
        MapDone(f, e, out);
        break;
      }
      MapNext(f, e, i, out);
      out := out + [f(x.value)];
      i := i + 1;
    }
  }

  /** `filter(p)`. */
  method FilterOf<X>(p: X -> bool, xs: Iterable<X>) returns (out: seq<X>)
    requires Wf(xs) && !xs.Branch?
    modifies ReprOf(xs)
    ensures Wf(xs) && WalkedOut(xs, old(Elements(xs))) && OffPathOf(xs) == old(OffPathOf(xs))
    ensures out == Filter(p, old(Elements(xs)))
  {
    ghost var e, off := Elements(xs), OffPathOf(xs);
    var it := StartWalk(xs);
    ghost var i := 0;
    out := [];
    while true
      invariant Walking(xs, it, e, i, off)
      invariant !IsIterator(xs) ==> fresh(it.cursor)
      invariant FilterInv(p, e, i, out)
      decreases |e| - i
    {
      var x := Step(xs, it, e, i, off);
      if x.None? {
        FilterDone(p, e, out);
        break;
      }
      FilterNext(p, e, i, out);
      if p(x.value) {
        out := out + [x.value];
      }
      i := i + 1;
    }
  }

  /** `skip(n)`: the counter is bumped before the test, so the first `n`
      elements are dropped. */
  method SkipOf<X>(n: int, xs: Iterable<X>) returns (out: seq<X>)
    requires Wf(xs) && !xs.Branch?
    modifies ReprOf(xs)
    ensures Wf(xs) && WalkedOut(xs, old(Elements(xs))) && OffPathOf(xs) == old(OffPathOf(xs))
    ensures out == Skip(n, old(Elements(xs)))
  {
    ghost var e, off := Elements(xs), OffPathOf(xs);
    var it := StartWalk(xs);
    var i := 0;
    out := [];
    while true
      invariant Walking(xs, it, e, i, off)
      invariant !IsIterator(xs) ==> fresh(it.cursor)
      invariant SkipInv(n, e, i, out)
      decreases |e| - i
    {
      var x := Step(xs, it, e, i, off);
      if x.None? {
        SkipDone(n, e, out);
        break;
      }
      SkipNext(n, e, i, out);
      i := i + 1;
      if i <= n {
        continue;
      }
      out := out + [x.value];
    }
  }

  /** `take(n)`: the counter is bumped before the test, so the loop is left
      on the element after the first `n`. */
  method TakeOf<X>(n: int, xs: Iterable<X>) returns (out: seq<X>)
    requires Wf(xs) && !xs.Branch?
    modifies ReprOf(xs)
    ensures Wf(xs) && OffPathOf(xs) == old(OffPathOf(xs))
    ensures out == Take(n, old(Elements(xs)))
    ensures |out| < |old(Elements(xs))| ==> LeftAt(xs, old(Elements(xs)), |out|)
    ensures |out| == |old(Elements(xs))| ==> WalkedOut(xs, old(Elements(xs)))
  {
    ghost var e, off := Elements(xs), OffPathOf(xs);
    var it := StartWalk(xs);
    var i := 0;
    out := [];
    while true
      invariant Walking(xs, it, e, i, off)
      invariant !IsIterator(xs) ==> fresh(it.cursor)
      invariant TakeInv(n, e, i, out)
      decreases |e| - i
    {
      var x := Step(xs, it, e, i, off);
      if x.None? {
        TakeDone(n, e, out);
        break;
      }
      i := i + 1;
      if i > n {
        TakeLeft(n, e, i - 1, out);
        Leave(xs, it, e, i - 1, off);
        break;
      }
      TakeNext(n, e, i - 1, out);
      out := out + [x.value];
    }
  }

  /** `takeWhile(f)`: the loop is left on the first element failing `f`. */
  method TakeWhileOf<X>(f: X -> bool, xs: Iterable<X>) returns (out: seq<X>)
    requires Wf(xs) && !xs.Branch?
    modifies ReprOf(xs)
    ensures Wf(xs) && OffPathOf(xs) == old(OffPathOf(xs))
    ensures out == TakeWhile(f, old(Elements(xs)))
    ensures |out| < |old(Elements(xs))| ==> LeftAt(xs, old(Elements(xs)), |out|)
    ensures |out| == |old(Elements(xs))| ==> WalkedOut(xs, old(Elements(xs)))
  {
    ghost var e, off := Elements(xs), OffPathOf(xs);
    var it := StartWalk(xs);
    ghost var i := 0;
    out := [];
    while true
      invariant Walking(xs, it, e, i, off)
      invariant !IsIterator(xs) ==> fresh(it.cursor)
      invariant TakeWhileInv(f, e, i, out)
      decreases |e| - i
    {
      var x := Step(xs, it, e, i, off);
      if x.None? {
        TakeWhileDone(f, e, out);
        break;
      }
      TakeWhileNext(f, e, i, out);
      if f(x.value) {
        out := out + [x.value];
      } else {
        Leave(xs, it, e, i, off);
        break;
      }
      i := i + 1;
    }
  }

  /** `skipWhile(f)`: `iterator(xs)` is walked by a first loop, left on the
      first element failing `f` (which calls `return()` on it); that element,
      or else the last one seen, is yielded; a second loop yields what the
      iterator then has left. On an array the second loop yields the rest;
      on a generator the first loop finished it. */
  method SkipWhileOf<X>(f: X -> bool, xs: Iterable<X>) returns (out: seq<Option<X>>)
    requires Wf(xs) && !xs.Branch?
    modifies ReprOf(xs)
    ensures Wf(xs) && WalkedOut(xs, old(Elements(xs))) && OffPathOf(xs) == old(OffPathOf(xs))
    ensures IsIterator(xs) && Closable(xs) ==> out == SkipWhileOnGenerator(f, old(Elements(xs)))
    ensures !(IsIterator(xs) && Closable(xs)) ==> out == SkipWhile(f, old(Elements(xs)))
  {
    ghost var e, off := Elements(xs), OffPathOf(xs);
    var it := StartWalk(xs);
    ghost var i := 0;
    var first: Option<X> := None;
    while true
      invariant Walking(xs, it, e, i, off)
      invariant !IsIterator(xs) ==> fresh(it.cursor)
      invariant SkipWhileInv(f, e, i, first)
      decreases |e| - i
    {
      var x := Step(xs, it, e, i, off);
      if x.None? {
        SkipWhileDone(f, e, first);
        break;
      }
      SkipWhileNext(f, e, i, first);
      first := x;
      if !f(x.value) {
        Leave(xs, it, e, i, off);
        break;
      }
      i := i + 1;
    }
    var rest := Drain(it);
    SkipWhileOutput(f, e);
    out := [first] + Wrap(rest);
  }

  /** `pairwise()`: one `next()` for the first element, then a loop pairing
      each element with the one before. (On an empty input the loop's own
      first `next()` finds the iterator done and changes nothing.) */
  method PairwiseOf<X>(xs: Iterable<X>) returns (out: seq<(X, X)>)
    requires Wf(xs) && !xs.Branch?
    modifies ReprOf(xs)
    ensures Wf(xs) && WalkedOut(xs, old(Elements(xs))) && OffPathOf(xs) == old(OffPathOf(xs))
    ensures out == Pairwise(old(Elements(xs)))
  {
    ghost var e, off := Elements(xs), OffPathOf(xs);
    var it := StartWalk(xs);
    var head := Step(xs, it, e, 0, off);
    out := [];
    if head.None? {
      return;
    }
    var prev := head.value;
    ghost var i := 1;
    PairStart(e);
    while true
      invariant Walking(xs, it, e, i, off)
      invariant !IsIterator(xs) ==> fresh(it.cursor)
      invariant PairInv(e, i, prev, out)
      decreases |e| - i
    {
      var x := Step(xs, it, e, i, off);
      if x.None? {
        PairDone(e, prev, out);
        break;
      }
      PairNext(e, i, prev, out);
      out := out + [(prev, x.value)];
      prev := x.value;
      i := i + 1;
    }
  }

  /** `minBy(cf)`: the first element is the start value; an element
      replaces it when `cf` puts it below. */
  method MinByOf<X>(cf: (X, X) -> int, xs: Iterable<X>) returns (r: Option<X>)
    requires Wf(xs) && !xs.Branch?
    modifies ReprOf(xs)
    ensures Wf(xs) && WalkedOut(xs, old(Elements(xs))) && OffPathOf(xs) == old(OffPathOf(xs))
    ensures r == MinBy(cf, old(Elements(xs)))
  {
    ghost var e, off := Elements(xs), OffPathOf(xs);
    var it := StartWalk(xs);
    var head := Step(xs, it, e, 0, off);
    if head.None? {
      return None;
    }
    var res := head.value;
    ghost var i := 1;
    while true
      invariant Walking(xs, it, e, i, off)
      invariant !IsIterator(xs) ==> fresh(it.cursor)
      invariant 1 <= i && FoldInv(MinStep(cf), e, i, res, Fold(MinStep(cf), e[0], e[1..]))
      decreases |e| - i
    {
      var x := Step(xs, it, e, i, off);
      if x.None? {
        FoldDone(MinStep(cf), e, res, Fold(MinStep(cf), e[0], e[1..]));
        break;
      }
      FoldNext(MinStep(cf), e, i, res, Fold(MinStep(cf), e[0], e[1..]));
      if cf(x.value, res) < 0 {
        res := x.value;
      }
      i := i + 1;
    }
    return Some(res);
  }

  /** `maxBy(cf)`: the first element is the start value; an element
      replaces it when `cf` puts it above. */
  method MaxByOf<X>(cf: (X, X) -> int, xs: Iterable<X>) returns (r: Option<X>)
    requires Wf(xs) && !xs.Branch?
    modifies ReprOf(xs)
    ensures Wf(xs) && WalkedOut(xs, old(Elements(xs))) && OffPathOf(xs) == old(OffPathOf(xs))
    ensures r == MaxBy(cf, old(Elements(xs)))
  {
    ghost var e, off := Elements(xs), OffPathOf(xs);
    var it := StartWalk(xs);
    var head := Step(xs, it, e, 0, off);
    if head.None? {
      return None;
    }
    var res := head.value;
    ghost var i := 1;
    while true
      invariant Walking(xs, it, e, i, off)
      invariant !IsIterator(xs) ==> fresh(it.cursor)
      invariant 1 <= i && FoldInv(MaxStep(cf), e, i, res, Fold(MaxStep(cf), e[0], e[1..]))
      decreases |e| - i
    {
      var x := Step(xs, it, e, i, off);
      if x.None? {
        FoldDone(MaxStep(cf), e, res, Fold(MaxStep(cf), e[0], e[1..]));
        break;
      }
      FoldNext(MaxStep(cf), e, i, res, Fold(MaxStep(cf), e[0], e[1..]));
      if cf(x.value, res) > 0 {
        res := x.value;
      }
      i := i + 1;
    }
    return Some(res);
  }

  /** `minMaxBy(cf)`: one loop updating `min` and `max` side by side. */
  method MinMaxByOf<X>(cf: (X, X) -> int, xs: Iterable<X>) returns (r: (Option<X>, Option<X>))
    requires Wf(xs) && !xs.Branch?
    modifies ReprOf(xs)
    ensures Wf(xs) && WalkedOut(xs, old(Elements(xs))) && OffPathOf(xs) == old(OffPathOf(xs))
    ensures r == MinMaxBy(cf, old(Elements(xs)))
  {
    ghost var e, off := Elements(xs), OffPathOf(xs);
    var it := StartWalk(xs);
    var head := Step(xs, it, e, 0, off);
    if head.None? {
      return (None, None);
    }
    var min, max := head.value, head.value;
    ghost var i := 1;
    while true
      invariant Walking(xs, it, e, i, off)
      invariant !IsIterator(xs) ==> fresh(it.cursor)
      invariant 1 <= i && MinMaxInv(cf, e, i, min, max, MinMaxFrom(cf, e[0], e[0], e[1..]))
      decreases |e| - i
    {
      var x := Step(xs, it, e, i, off);
      if x.None? {
        MinMaxDone(cf, e, min, max, MinMaxFrom(cf, e[0], e[0], e[1..]));
        break;
      }
      MinMaxNext(cf, e, i, min, max, MinMaxFrom(cf, e[0], e[0], e[1..]));
      if cf(x.value, min) < 0 {
        min := x.value;
      }
      if cf(x.value, max) > 0 {
        max := x.value;
      }
      i := i + 1;
    }
    return (Some(min), Some(max));
  }

  /** `minByScan(cf)`: `null` for an empty input; otherwise, after the
      first element, the running minimum after each further element. */
  method MinByScanOf<X>(cf: (X, X) -> int, xs: Iterable<X>) returns (out: seq<Option<X>>)
    requires Wf(xs) && !xs.Branch?
    modifies ReprOf(xs)
    ensures Wf(xs) && WalkedOut(xs, old(Elements(xs))) && OffPathOf(xs) == old(OffPathOf(xs))
    ensures out == MinByScan(cf, old(Elements(xs)))
  {
    ghost var e, off := Elements(xs), OffPathOf(xs);
    var it := StartWalk(xs);
    var head := Step(xs, it, e, 0, off);
    if head.None? {
      return [None];
    }
    var res := head.value;
    out := [];
    ghost var i := 1;
    ExtremeScanStart(MinStep(cf), e);
    while true
      invariant Walking(xs, it, e, i, off)
      invariant !IsIterator(xs) ==> fresh(it.cursor)
      invariant ExtremeScanInv(MinStep(cf), e, i, res, out)
      decreases |e| - i
    {
      var x := Step(xs, it, e, i, off);
      if x.None? {
        ExtremeScanDone(MinStep(cf), e, res, out);
        break;
      }
      ExtremeScanNext(MinStep(cf), e, i, res, out);
      if cf(x.value, res) < 0 {
        res := x.value;
      }
      out := out + [Some(res)];
      i := i + 1;
    }
  }

  /** `maxByScan(cf)`: `null` for an empty input; otherwise, after the
      first element, the running maximum after each further element. */
  method MaxByScanOf<X>(cf: (X, X) -> int, xs: Iterable<X>) returns (out: seq<Option<X>>)
    requires Wf(xs) && !xs.Branch?
    modifies ReprOf(xs)
    ensures Wf(xs) && WalkedOut(xs, old(Elements(xs))) && OffPathOf(xs) == old(OffPathOf(xs))
    ensures out == MaxByScan(cf, old(Elements(xs)))
  {
    ghost var e, off := Elements(xs), OffPathOf(xs);
    var it := StartWalk(xs);
    var head := Step(xs, it, e, 0, off);
    if head.None? {
      return [None];
    }
    var res := head.value;
    out := [];
    ghost var i := 1;
    ExtremeScanStart(MaxStep(cf), e);
    while true
      invariant Walking(xs, it, e, i, off)
      invariant !IsIterator(xs) ==> fresh(it.cursor)
      invariant ExtremeScanInv(MaxStep(cf), e, i, res, out)
      decreases |e| - i
    {
      var x := Step(xs, it, e, i, off);
      if x.None? {
        ExtremeScanDone(MaxStep(cf), e, res, out);
        break;
      }
      ExtremeScanNext(MaxStep(cf), e, i, res, out);
      if cf(x.value, res) > 0 {
        res := x.value;
      }
      out := out + [Some(res)];
      i := i + 1;
    }
  }

  /** `distinctUntilChanged(comp)`: the first element, then each element
      `comp` does not find equal to the last one yielded. */
  method DistinctUntilChangedOf<X>(comp: (X, X) -> bool, xs: Iterable<X>) returns (out: seq<X>)
    requires Wf(xs) && !xs.Branch?
    modifies ReprOf(xs)
    ensures Wf(xs) && WalkedOut(xs, old(Elements(xs))) && OffPathOf(xs) == old(OffPathOf(xs))
    ensures out == DistinctUntilChanged(comp, old(Elements(xs)))
  {
    ghost var e, off := Elements(xs), OffPathOf(xs);
    var it := StartWalk(xs);
    var head := Step(xs, it, e, 0, off);
    if head.None? {
      return [];
    }
    var initial := head.value;
    out := [initial];
    ghost var i := 1;
    DistinctStart(comp, e);
    while true
      invariant Walking(xs, it, e, i, off)
      invariant !IsIterator(xs) ==> fresh(it.cursor)
      invariant DistinctInv(comp, e, i, initial, out)
      decreases |e| - i
    {
      var x := Step(xs, it, e, i, off);
      if x.None? {
        DistinctDone(comp, e, initial, out);
        break;
      }
      DistinctNext(comp, e, i, initial, out);
      if !comp(x.value, initial) {
        initial := x.value;
        out := out + [initial];
      }
      i := i + 1;
    }
  }

  /** The `step` shifts of `grouped` after a full window: a shift on an
      empty window does nothing. */
  method ShiftTimes<X>(group: seq<X>, step: int) returns (g: seq<X>)
    ensures g == group[Clamp(step, |group|)..]
  {
    g := group;
    var j := 0;
    while j < step
      invariant 0 <= j && (j == 0 || j <= step)
      invariant g == group[Clamp(j, |group|)..]
      decreases step - j
    {
      if g != [] {
        g := g[1..];
      }
      j := j + 1;
    }
  }

  /** `grouped(n, step)`: each element is pushed onto the window; a window
      of exactly `n` is yielded as a copy and then shifted `step` times. */
  method GroupedOf<X>(n: int, step: int, xs: Iterable<X>) returns (out: seq<seq<X>>)
    requires Wf(xs) && !xs.Branch?
    modifies ReprOf(xs)
    ensures Wf(xs) && WalkedOut(xs, old(Elements(xs))) && OffPathOf(xs) == old(OffPathOf(xs))
    ensures out == Grouped(n, step, old(Elements(xs)))
  {
    ghost var e, off := Elements(xs), OffPathOf(xs);
    var it := StartWalk(xs);
    ghost var i := 0;
    var group: seq<X> := [];
    out := [];
    while true
      invariant Walking(xs, it, e, i, off)
      invariant !IsIterator(xs) ==> fresh(it.cursor)
      invariant GroupedInv(n, step, e, i, group, out)
      decreases |e| - i
    {
      var x := Step(xs, it, e, i, off);
      if x.None? {
        GroupedDone(n, step, e, group, out);
        break;
      }
      GroupedNext(n, step, e, i, group, out);
      group := group + [x.value];
      if |group| == n {
        out := out + [group];
        group := ShiftTimes(group, step);
      }
      i := i + 1;
    }
  }

  /** The body of the `groupBy` loop: a new key gets an empty array, then
      the element is pushed onto the array of its key. */
  method Add<X, K>(res: map<K, seq<X>>, key: K, x: X) returns (r: map<K, seq<X>>)
    ensures r == Push(res, key, x)
  {
    r := res;
    if key !in r {
      r := r[key := []];
    }
    r := r[key := r[key] + [x]];
  }

  /** `groupBy(f)`: a key gets an empty array when first seen, then each
      element is pushed onto the array of its key. */
  method GroupByOf<X, K(==, !new)>(f: X -> K, xs: Iterable<X>) returns (res: map<K, seq<X>>)
    requires Wf(xs) && !xs.Branch?
    modifies ReprOf(xs)
    ensures Wf(xs) && WalkedOut(xs, old(Elements(xs))) && OffPathOf(xs) == old(OffPathOf(xs))
    ensures res == GroupBy(f, old(Elements(xs)))
  {
    ghost var e, off := Elements(xs), OffPathOf(xs);
    var it := StartWalk(xs);
    ghost var i := 0;
    res := map[];
    while true
      invariant Walking(xs, it, e, i, off)
      invariant !IsIterator(xs) ==> fresh(it.cursor)
      invariant GroupByInv(f, e, i, res)
      decreases |e| - i
    {
      var x := Step(xs, it, e, i, off);
      if x.None? {
        GroupByDone(f, e, res);
        break;
      }
      GroupByNext(f, e, i, res);
      res := Add(res, f(x.value), x.value);
      i := i + 1;
    }
  }

  /** `enumerate(xs)`: each element with the count before it. */
  method EnumerateOf<X>(xs: Iterable<X>) returns (out: seq<(int, X)>)
    requires Wf(xs) && !xs.Branch?
    modifies ReprOf(xs)
    ensures Wf(xs) && WalkedOut(xs, old(Elements(xs))) && OffPathOf(xs) == old(OffPathOf(xs))
    ensures out == Enumerate(old(Elements(xs)))
  {
    ghost var e, off := Elements(xs), OffPathOf(xs);
    var it := StartWalk(xs);
    var i := 0;
    out := [];
    while true
      invariant Walking(xs, it, e, i, off)
      invariant !IsIterator(xs) ==> fresh(it.cursor)
      invariant EnumerateInv(e, i, out)
      decreases |e| - i
    {
      var x := Step(xs, it, e, i, off);
      if x.None? {
        EnumerateDone(e, out);
        break;
      }
      EnumerateNext(e, i, out);
      out := out + [(i, x.value)];
      i := i + 1;
    }
  }

  /** `range(start, end, step)`: the counting loop, stopped after `bound`
      values when it has not ended by then. */
  method RangeOf(start: int, end: int, step: int, bound: nat) returns (out: seq<int>)
    ensures out == Range(start, end, step, bound)
  {
    var i := start;
    out := [];
    while |out| < bound && InRange(start, end, i)
      invariant |out| <= bound
      invariant out + RangeFrom(start, end, step, i, bound - |out|) == Range(start, end, step, bound)
      decreases bound - |out|
    {
      out := out + [i];
      i := i + step;
    }
  }
}
