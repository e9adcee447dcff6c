/** The invariants of the `for...of` loops of iter.ts, stated over the
    elements alone: after `i` of the elements `e`, what the loop has
    produced, put together with what the matching function yields for the
    rest, is what that function yields for all of `e`. Each invariant comes
    with the lemma that one more element keeps it and the lemma that reads
    the result off it at the end. */
module LoopInvariants {
  import opened Wrappers
  import opened Operators
  import opened Folds

  /** Nothing among the first `i` elements satisfies `p`. */
  ghost predicate NoneYet<X>(p: X -> bool, e: seq<X>, i: nat)
  {
    i <= |e| && forall j :: 0 <= j < i ==> !p(e[j])
  }

  /** The first element satisfying `p` is the `i`-th. */
  lemma FirstMatch<X>(p: X -> bool, e: seq<X>, i: nat)
    requires i < |e| && NoneYet(p, e, i) && p(e[i])
    ensures FindIndex(p, e) == i && Any(p, e) && Find(p, e) == Some(e[i])
  {
    FindIndexFirst(p, e);
    AnyExists(p, e);
  }

  /** No element satisfies `p`. */
  lemma NoMatch<X>(p: X -> bool, e: seq<X>)
    requires NoneYet(p, e, |e|)
    ensures FindIndex(p, e) == -1 && !Any(p, e) && Find(p, e) == None
  {
    AnyExists(p, e);
  }

  /** The first element failing `p` is the `i`-th. */
  lemma FirstFail<X>(p: X -> bool, e: seq<X>, i: nat)
    requires i < |e| && NoneYet(x => !p(x), e, i) && !p(e[i])
    ensures FindIndex(x => !p(x), e) == i && !All(p, e)
  {
    FindIndexFirst(x => !p(x), e);
    AllForall(p, e);
  }

  /** No element fails `p`. */
  lemma NoFail<X>(p: X -> bool, e: seq<X>)
    requires NoneYet(x => !p(x), e, |e|)
    ensures All(p, e)
  {
    AllForall(p, e);
  }

  /** `reduce`: folding the rest from `res` gives `whole`. */
  ghost predicate FoldInv<X, R>(f: (R, X) -> R, e: seq<X>, i: nat, res: R, whole: R)
  {
    i <= |e| && Fold(f, res, e[i..]) == whole
  }

  lemma FoldNext<X, R>(f: (R, X) -> R, e: seq<X>, i: nat, res: R, whole: R)
    requires i < |e| && FoldInv(f, e, i, res, whole)
    ensures FoldInv(f, e, i + 1, f(res, e[i]), whole)
  {
    assert e[i..][1..] == e[i + 1..];
  }

  lemma FoldDone<X, R>(f: (R, X) -> R, e: seq<X>, res: R, whole: R)
    requires FoldInv(f, e, |e|, res, whole)
    ensures res == whole
  {
  }

  /** `minMaxBy`: the joint fold of the rest from `lo` and `hi` gives
      `whole`. */
  ghost predicate MinMaxInv<X>(cf: (X, X) -> int, e: seq<X>, i: nat, lo: X, hi: X, whole: (X, X))
  {
    i <= |e| && MinMaxFrom(cf, lo, hi, e[i..]) == whole
  }

  lemma MinMaxNext<X>(cf: (X, X) -> int, e: seq<X>, i: nat, lo: X, hi: X, whole: (X, X))
    requires i < |e| && MinMaxInv(cf, e, i, lo, hi, whole)
    ensures MinMaxInv(cf, e, i + 1, MinStep(cf)(lo, e[i]), MaxStep(cf)(hi, e[i]), whole)
  {
    assert e[i..][1..] == e[i + 1..];
  }

  lemma MinMaxDone<X>(cf: (X, X) -> int, e: seq<X>, lo: X, hi: X, whole: (X, X))
    requires MinMaxInv(cf, e, |e|, lo, hi, whole)
    ensures (lo, hi) == whole
  {
  }

  /** `scan`: the values so far, then the scan of the rest from `res`, give
      `whole`. */
  ghost predicate ScanInv<X, R>(f: (R, X) -> R, e: seq<X>, i: nat, res: R, out: seq<R>, whole: seq<R>)
  {
    i <= |e| && out + Scan(f, res, e[i..]) == whole
  }

  lemma ScanNext<X, R>(f: (R, X) -> R, e: seq<X>, i: nat, res: R, out: seq<R>, whole: seq<R>)
    requires i < |e| && ScanInv(f, e, i, res, out, whole)
    ensures ScanInv(f, e, i + 1, f(res, e[i]), out + [f(res, e[i])], whole)
  {
    assert e[i..][1..] == e[i + 1..];
    assert Scan(f, res, e[i..]) == [f(res, e[i])] + Scan(f, f(res, e[i]), e[i + 1..]);
    assert (out + [f(res, e[i])]) + Scan(f, f(res, e[i]), e[i + 1..]) == out + Scan(f, res, e[i..]);
  }

  lemma ScanDone<X, R>(f: (R, X) -> R, e: seq<X>, res: R, out: seq<R>, whole: seq<R>)
    requires ScanInv(f, e, |e|, res, out, whole)
    ensures out == whole
  {
    assert out + [] == out;
  }

  /** `minByScan`/`maxByScan` with step `step`: after the first element,
      the values so far, then those of the rest from `res`, are what the
      scan as written yields. */
  ghost predicate ExtremeScanInv<X>(step: (X, X) -> X, e: seq<X>, i: nat, res: X, out: seq<Option<X>>)
  {
    1 <= i <= |e| && out + Wrap(Scan(step, res, e[i..])) == ExtremeScan(step, e)
  }

  lemma ExtremeScanStart<X>(step: (X, X) -> X, e: seq<X>)
    requires e != []
    ensures ExtremeScanInv(step, e, 1, e[0], [])
  {
    assert [] + Wrap(Scan(step, e[0], e[1..])) == Wrap(Scan(step, e[0], e[1..]));
  }

  lemma ExtremeScanNext<X>(step: (X, X) -> X, e: seq<X>, i: nat, res: X, out: seq<Option<X>>)
    requires i < |e| && ExtremeScanInv(step, e, i, res, out)
    ensures ExtremeScanInv(step, e, i + 1, step(res, e[i]), out + [Some(step(res, e[i]))])
  {
    var v := step(res, e[i]);
    var rest := Scan(step, v, e[i + 1..]);
    assert e[i..][1..] == e[i + 1..];
    assert Scan(step, res, e[i..]) == [v] + rest;
    WrapAppend([v], rest);
    assert Wrap([v]) == [Some(v)];
    assert (out + [Some(v)]) + Wrap(rest) == out + ([Some(v)] + Wrap(rest));
  }

  lemma ExtremeScanDone<X>(step: (X, X) -> X, e: seq<X>, res: X, out: seq<Option<X>>)
    requires ExtremeScanInv(step, e, |e|, res, out)
    ensures out == ExtremeScan(step, e)
  {
    assert out + [] == out;
  }

  /** `map`. */
  ghost predicate MapInv<A, B>(f: A -> B, e: seq<A>, i: nat, out: seq<B>)
  {
    i <= |e| && out + Map(f, e[i..]) == Map(f, e)
  }

  lemma MapNext<A, B>(f: A -> B, e: seq<A>, i: nat, out: seq<B>)
    requires i < |e| && MapInv(f, e, i, out)
    ensures MapInv(f, e, i + 1, out + [f(e[i])])
  {
    assert e[i..][1..] == e[i + 1..];
    assert Map(f, e[i..]) == [f(e[i])] + Map(f, e[i + 1..]);
    assert (out + [f(e[i])]) + Map(f, e[i + 1..]) == out + ([f(e[i])] + Map(f, e[i + 1..]));
  }

  lemma MapDone<A, B>(f: A -> B, e: seq<A>, out: seq<B>)
    requires MapInv(f, e, |e|, out)
    ensures out == Map(f, e)
  {
    assert out + [] == out;
  }

  /** `filter`: the elements so far that satisfy `p`. */
  ghost predicate FilterInv<X>(p: X -> bool, e: seq<X>, i: nat, out: seq<X>)
  {
    i <= |e| && out == Filter(p, e[..i])
  }

  lemma FilterNext<X>(p: X -> bool, e: seq<X>, i: nat, out: seq<X>)
    requires i < |e| && FilterInv(p, e, i, out)
    ensures FilterInv(p, e, i + 1, out + if p(e[i]) then [e[i]] else [])
  {
    assert e[..i + 1] == e[..i] + [e[i]];
    FilterSnoc(p, e[..i], e[i]);
  }

  lemma FilterDone<X>(p: X -> bool, e: seq<X>, out: seq<X>)
    requires FilterInv(p, e, |e|, out)
    ensures out == Filter(p, e)
  {
    assert e[..|e|] == e;
  }

  /** `skip(n)`: after `i` elements, those past the first `n`. */
  ghost predicate SkipInv<X>(n: int, e: seq<X>, i: nat, out: seq<X>)
  {
    i <= |e| && out == e[Clamp(n, i)..i]
  }

  lemma SkipNext<X>(n: int, e: seq<X>, i: nat, out: seq<X>)
    requires i < |e| && SkipInv(n, e, i, out)
    ensures i + 1 <= n ==> SkipInv(n, e, i + 1, out)
    ensures i + 1 > n ==> SkipInv(n, e, i + 1, out + [e[i]])
  {
  }

  lemma SkipDone<X>(n: int, e: seq<X>, out: seq<X>)
    requires SkipInv(n, e, |e|, out)
    ensures out == Skip(n, e)
  {
  }

  /** `take(n)`: the first `i` elements, with `i` within the first `n`. */
  ghost predicate TakeInv<X>(n: int, e: seq<X>, i: nat, out: seq<X>)
  {
    i <= Clamp(n, |e|) && out == e[..i]
  }

  lemma TakeNext<X>(n: int, e: seq<X>, i: nat, out: seq<X>)
    requires i < |e| && TakeInv(n, e, i, out) && i + 1 <= n
    ensures TakeInv(n, e, i + 1, out + [e[i]])
  {
  }

  /** The loop is left on the element after the first `n`. */
  lemma TakeLeft<X>(n: int, e: seq<X>, i: nat, out: seq<X>)
    requires i < |e| && TakeInv(n, e, i, out) && i + 1 > n
    ensures out == Take(n, e) && |out| == i
  {
  }

  lemma TakeDone<X>(n: int, e: seq<X>, out: seq<X>)
    requires TakeInv(n, e, |e|, out)
    ensures out == Take(n, e) && |out| == |e|
  {
    assert e[..|e|] == e;
  }

  /** `takeWhile(f)`. */
  ghost predicate TakeWhileInv<X>(f: X -> bool, e: seq<X>, i: nat, out: seq<X>)
  {
    i <= |e| && |out| == i && out + TakeWhile(f, e[i..]) == TakeWhile(f, e)
  }

  lemma TakeWhileNext<X>(f: X -> bool, e: seq<X>, i: nat, out: seq<X>)
    requires i < |e| && TakeWhileInv(f, e, i, out)
    ensures f(e[i]) ==> TakeWhileInv(f, e, i + 1, out + [e[i]])
    ensures !f(e[i]) ==> out == TakeWhile(f, e)
  {
    var rest := e[i..];
    assert rest[0] == e[i] && rest[1..] == e[i + 1..];
    if f(e[i]) {
      var tail := TakeWhile(f, e[i + 1..]);
      assert TakeWhile(f, rest) == [e[i]] + tail;
      assert (out + [e[i]]) + tail == out + ([e[i]] + tail);
    } else {
      assert TakeWhile(f, rest) == [];
      assert out + [] == out;
    }
  }

  lemma TakeWhileDone<X>(f: X -> bool, e: seq<X>, out: seq<X>)
    requires TakeWhileInv(f, e, |e|, out)
    ensures out == TakeWhile(f, e)
  {
    assert out + [] == out;
  }

  /** The first loop of `skipWhile(f)`: run on the rest from `first`, it
      ends as it does on all of `e`. */
  ghost predicate SkipWhileInv<X>(f: X -> bool, e: seq<X>, i: nat, first: Option<X>)
  {
    i <= |e| && SkipLoop(f, e[i..], first) == SkipLoop(f, e, None)
  }

  lemma SkipWhileNext<X>(f: X -> bool, e: seq<X>, i: nat, first: Option<X>)
    requires i < |e| && SkipWhileInv(f, e, i, first)
    ensures f(e[i]) ==> SkipWhileInv(f, e, i + 1, Some(e[i]))
    ensures !f(e[i]) ==> SkipLoop(f, e, None) == (Some(e[i]), e[i + 1..])
  {
    assert e[i..][1..] == e[i + 1..];
  }

  lemma SkipWhileDone<X>(f: X -> bool, e: seq<X>, first: Option<X>)
    requires SkipWhileInv(f, e, |e|, first)
    ensures SkipLoop(f, e, None) == (first, [])
  {
  }

  /** What `skipWhile(f)` yields, read off its first loop. */
  lemma SkipWhileOutput<X>(f: X -> bool, e: seq<X>)
    ensures SkipWhile(f, e) == [SkipLoop(f, e, None).0] + Wrap(SkipLoop(f, e, None).1)
    ensures SkipWhileOnGenerator(f, e) == [SkipLoop(f, e, None).0]
  {
  }

  /** `pairwise()`: `prev` is the element before the `i`-th. */
  ghost predicate PairInv<X>(e: seq<X>, i: nat, prev: X, out: seq<(X, X)>)
  {
    1 <= i <= |e| && prev == e[i - 1] && out + Pairwise(e[i - 1..]) == Pairwise(e)
  }

  lemma PairStart<X>(e: seq<X>)
    requires e != []
    ensures PairInv(e, 1, e[0], [])
  {
  }

  lemma PairNext<X>(e: seq<X>, i: nat, prev: X, out: seq<(X, X)>)
    requires i < |e| && PairInv(e, i, prev, out)
    ensures PairInv(e, i + 1, e[i], out + [(prev, e[i])])
  {
    assert e[i - 1..][1..] == e[i..];
    assert Pairwise(e[i - 1..]) == [(e[i - 1], e[i])] + Pairwise(e[i..]);
    assert (out + [(e[i - 1], e[i])]) + Pairwise(e[i..]) == out + Pairwise(e[i - 1..]);
  }

  lemma PairDone<X>(e: seq<X>, prev: X, out: seq<(X, X)>)
    requires PairInv(e, |e|, prev, out)
    ensures out == Pairwise(e)
  {
    assert out + [] == out;
  }

  /** `distinctUntilChanged(comp)`: `last` is the element yielded last. */
  ghost predicate DistinctInv<X>(comp: (X, X) -> bool, e: seq<X>, i: nat, last: X, out: seq<X>)
  {
    1 <= i <= |e| && out + DistinctFrom(comp, last, e[i..]) == DistinctUntilChanged(comp, e)
  }

  lemma DistinctStart<X>(comp: (X, X) -> bool, e: seq<X>)
    requires e != []
    ensures DistinctInv(comp, e, 1, e[0], [e[0]])
  {
  }

  lemma DistinctNext<X>(comp: (X, X) -> bool, e: seq<X>, i: nat, last: X, out: seq<X>)
    requires i < |e| && DistinctInv(comp, e, i, last, out)
    ensures !comp(e[i], last) ==> DistinctInv(comp, e, i + 1, e[i], out + [e[i]])
    ensures comp(e[i], last) ==> DistinctInv(comp, e, i + 1, last, out)
  {
    assert e[i..][1..] == e[i + 1..];
    if !comp(e[i], last) {
      assert DistinctFrom(comp, last, e[i..]) == [e[i]] + DistinctFrom(comp, e[i], e[i + 1..]);
      assert (out + [e[i]]) + DistinctFrom(comp, e[i], e[i + 1..]) == out + DistinctFrom(comp, last, e[i..]);
    }
  }

  lemma DistinctDone<X>(comp: (X, X) -> bool, e: seq<X>, last: X, out: seq<X>)
    requires DistinctInv(comp, e, |e|, last, out)
    ensures out == DistinctUntilChanged(comp, e)
  {
    assert out + [] == out;
  }

  /** `grouped(n, step)`: `group` is the partial window. */
  ghost predicate GroupedInv<X>(n: int, step: int, e: seq<X>, i: nat, group: seq<X>, out: seq<seq<X>>)
  {
    i <= |e| && out + GroupedFrom(n, step, group, e[i..]) == Grouped(n, step, e)
  }

  lemma GroupedNext<X>(n: int, step: int, e: seq<X>, i: nat, group: seq<X>, out: seq<seq<X>>)
    requires i < |e| && GroupedInv(n, step, e, i, group, out)
    ensures var g := group + [e[i]];
      && (|g| == n ==> GroupedInv(n, step, e, i + 1, g[Clamp(step, |g|)..], out + [g]))
      && (|g| != n ==> GroupedInv(n, step, e, i + 1, g, out))
  {
    var g := group + [e[i]];
    assert e[i..][1..] == e[i + 1..];
    if |g| == n {
      var rest := GroupedFrom(n, step, g[Clamp(step, |g|)..], e[i + 1..]);
      assert GroupedFrom(n, step, group, e[i..]) == [g] + rest;
      assert (out + [g]) + rest == out + ([g] + rest);
    }
  }

  lemma GroupedDone<X>(n: int, step: int, e: seq<X>, group: seq<X>, out: seq<seq<X>>)
    requires GroupedInv(n, step, e, |e|, group, out)
    ensures out == Grouped(n, step, e)
  {
    assert out + [] == out;
  }

  /** `enumerate`: the counter is the number of elements so far. */
  ghost predicate EnumerateInv<X>(e: seq<X>, i: nat, out: seq<(int, X)>)
  {
    i <= |e| && out + EnumerateFrom(i, e[i..]) == Enumerate(e)
  }

  lemma EnumerateNext<X>(e: seq<X>, i: nat, out: seq<(int, X)>)
    requires i < |e| && EnumerateInv(e, i, out)
    ensures EnumerateInv(e, i + 1, out + [(i, e[i])])
  {
    assert e[i..][1..] == e[i + 1..];
    assert EnumerateFrom(i, e[i..]) == [(i, e[i])] + EnumerateFrom(i + 1, e[i + 1..]);
    assert (out + [(i, e[i])]) + EnumerateFrom(i + 1, e[i + 1..]) == out + EnumerateFrom(i, e[i..]);
  }

  lemma EnumerateDone<X>(e: seq<X>, out: seq<(int, X)>)
    requires EnumerateInv(e, |e|, out)
    ensures out == Enumerate(e)
  {
    assert out + [] == out;
  }

  /** `groupBy(f)`: the groups of the elements so far. */
  ghost predicate GroupByInv<X, K(!new)>(f: X -> K, e: seq<X>, i: nat, res: map<K, seq<X>>)
  {
    i <= |e| && res == GroupBy(f, e[..i])
  }

  lemma GroupByNext<X, K(!new)>(f: X -> K, e: seq<X>, i: nat, res: map<K, seq<X>>)
    requires i < |e| && GroupByInv(f, e, i, res)
    ensures GroupByInv(f, e, i + 1, Push(res, f(e[i]), e[i]))
  {
    assert e[..i + 1][..i] == e[..i];
  }

  lemma GroupByDone<X, K(!new)>(f: X -> K, e: seq<X>, res: map<K, seq<X>>)
    requires GroupByInv(f, e, |e|, res)
    ensures res == GroupBy(f, e)
  {
    assert e[..|e|] == e;
  }
}
