/** The operators of iter.ts that fork their input with `tee`. Each fork is
    walked to its end by its consumer; the model walks the first fork, then
    the second (TeeReplay shows that any other order of reading yields the
    same). */
module Forks {
  import opened Wrappers
  import opened Common
  import opened Operators
  import opened Constructors
  import opened Generators

  /** `[xs, xs2] = tee(xs)` followed by a `for...of` over `xs2` run to its
      end: the copy yields what `xs` had left, and the new `xs` still has
      all of it. */
  method TeeAndDrain<T>(xs: Iterable<T>) returns (kept: Iterable<T>, out: seq<T>)
    requires Wf(xs)
    modifies ReprOf(xs)
    ensures Wf(kept) && Elements(kept) == old(Elements(xs)) && out == old(Elements(xs))
    ensures fresh(ReprOf(kept) - ReprOf(xs))
    ensures !IsIterator(xs) ==> kept == xs
    ensures IsIterator(xs) ==> IsIterator(kept)
  {
    var copy;
    kept, copy := TeeOf(xs);
    if IsIterator(xs) {
      assert OffPathOf(copy) == [Elements(kept)] + OffPathOf(xs);
    }
    out := Drain(copy);
    if IsIterator(xs) {
      assert Wf(kept);
      assert OffPathOf(copy)[0] == Elements(kept);
    }
  }

  /** `tee(xs)` with both forks walked to their ends: each yields all that
      `xs` had left. */
  method DrainBoth<T>(xs: Iterable<T>) returns (first: seq<T>, second: seq<T>)
    requires Wf(xs)
    modifies ReprOf(xs)
    ensures first == old(Elements(xs)) && second == old(Elements(xs))
  {
    var kept;
    kept, second := TeeAndDrain(xs);
    first := Drain(kept);
  }

  /** The `j`-th copy of a `teeN` chain walked to its end: it yields `e`,
      and the copies after it and the last iterable still have all of `e`.
      Walking it moves only the tees at or before it; each tee after it
      sees the first branch of its predecessor unchanged. */
  method DrainCopy<T>(it: Iterable<T>, copies: seq<Iterable<T>>, last: Iterable<T>, j: nat, ghost e: seq<T>)
    returns (out: seq<T>)
    requires Linked(it, copies, last) && j < |copies|
    requires forall k :: j <= k < |copies| ==> Wf(copies[k]) && Elements(copies[k]) == e
    requires Wf(last) && Elements(last) == e
    modifies ReprOf(copies[j])
    ensures out == e
    ensures forall k :: j < k < |copies| ==> Wf(copies[k]) && Elements(copies[k]) == e
    ensures Wf(last) && Elements(last) == e
  {
    LinkedRepr(it, copies, last);
    SettledOf(it, copies, last, j + 1, e);
    assert copies[|copies| - 1].tee.Remaining(0) == e;
    out := Drain(copies[j]);
    assert OffPathOf(copies[j])[0] == copies[j].tee.Remaining(0);
    SettledValid(it, copies, last, j + 1, e);
  }

  /** Every copy of a `teeN` chain walked to its end, first to last, then
      the last iterable: each yields `e`. */
  method DrainEach<T>(it: Iterable<T>, copies: seq<Iterable<T>>, last: Iterable<T>, ghost e: seq<T>)
    returns (outs: seq<seq<T>>)
    requires Linked(it, copies, last)
    requires forall k :: 0 <= k < |copies| ==> Wf(copies[k]) && Elements(copies[k]) == e
    requires Wf(last) && Elements(last) == e
    modifies ReprOf(last)
    ensures |outs| == |copies| + 1
    ensures forall k :: 0 <= k < |outs| ==> outs[k] == e
  {
    LinkedRepr(it, copies, last);
    outs := [];
    var j := 0;
    while j < |copies|
      invariant j <= |copies| && |outs| == j
      invariant forall k :: 0 <= k < j ==> outs[k] == e
      invariant forall k :: j <= k < |copies| ==> Wf(copies[k]) && Elements(copies[k]) == e
      invariant Wf(last) && Elements(last) == e
    {
      var out := DrainCopy(it, copies, last, j, e);
      outs, j := outs + [out], j + 1;
    }
    var out := Drain(last);
    outs := outs + [out];
  }

  /** `teeN(it, n)` with its copies walked to their ends one after another:
      each yields all that `it` had left. */
  method TeeNDrained<T>(it: Iterable<T>, n: int) returns (outs: seq<seq<T>>)
    requires Wf(it)
    modifies ReprOf(it)
    ensures |outs| == if n < 1 then 1 else n
    ensures forall k :: 0 <= k < |outs| ==> outs[k] == old(Elements(it))
  {
    ghost var e := Elements(it);
    var copies := TeeN(it, n);
    if IsIterator(it) {
      var m := |copies| - 1;
      outs := DrainEach(it, copies[..m], copies[m], e);
    } else {
      outs := [];
      while |outs| < |copies|
        invariant |outs| <= |copies|
        invariant forall k :: 0 <= k < |outs| ==> outs[k] == e
      {
        var out := Drain(copies[|outs|]);
        outs := outs + [out];
      }
    }
  }

  /** `unzip3()`: `pluck(0)`, `pluck(1)` and `pluck(2)` of the three copies
      `teeN(xs, 3)` gives. */
  method Unzip3Of<X, Y, Z>(xs: Iterable<(X, Y, Z)>) returns (r: (seq<X>, seq<Y>, seq<Z>))
    requires Wf(xs)
    modifies ReprOf(xs)
    ensures r == Unzip3(old(Elements(xs)))
  {
    var outs := TeeNDrained(xs, 3);
    r := (Map((t: (X, Y, Z)) => t.0, outs[0]), Map((t: (X, Y, Z)) => t.1, outs[1]), Map((t: (X, Y, Z)) => t.2, outs[2]));
  }

  /** `unzip(n)`: the `i`-th of the copies `teeN(xs, n)` gives, plucked at
      `i`. */
  method UnzipOf<T>(n: int, xs: Iterable<seq<T>>) returns (outs: seq<seq<Option<T>>>)
    requires Wf(xs)
    modifies ReprOf(xs)
    ensures outs == Unzip(n, old(Elements(xs)))
  {
    var drained := TeeNDrained(xs, n);
    outs := [];
    while |outs| < |drained|
      invariant |outs| <= |drained|
      invariant forall i :: 0 <= i < |outs| ==> outs[i] == Pluck(i, drained[i])
    {
      outs := outs + [Pluck(|outs|, drained[|outs|])];
    }
  }

  /** `partition(p)`: the elements satisfying `p`, and the others. */
  method PartitionOf<X>(p: X -> bool, xs: Iterable<X>) returns (yes: seq<X>, no: seq<X>)
    requires Wf(xs)
    modifies ReprOf(xs)
    ensures (yes, no) == Partition(p, old(Elements(xs)))
  {
    var e1, e2 := DrainBoth(xs);
    yes := Filter(p, e1);
    no := Filter(x => !p(x), e2);
  }

  /** `partitionAt(n)`: `take(n)` of one fork and `skip(n)` of the other. */
  method PartitionAtOf<X>(n: int, xs: Iterable<X>) returns (front: seq<X>, back: seq<X>)
    requires Wf(xs)
    modifies ReprOf(xs)
    ensures (front, back) == PartitionAt(n, old(Elements(xs)))
  {
    var e1, e2 := DrainBoth(xs);
    front := Take(n, e1);
    back := Skip(n, e2);
  }

  /** `partitionWhile(f)`: `takeWhile(f)` of one fork and `skipWhile(f)` of
      the other. The fork of an iterator is a generator, so `skipWhile`
      calls its `return()` and yields one element at most; an array is its
      own fork. */
  method PartitionWhileOf<X>(f: X -> bool, xs: Iterable<X>) returns (front: seq<X>, back: seq<Option<X>>)
    requires Wf(xs)
    modifies ReprOf(xs)
    ensures !IsIterator(xs) ==> (front, back) == PartitionWhile(f, old(Elements(xs)))
    ensures IsIterator(xs) ==>
      front == PartitionWhile(f, old(Elements(xs))).0 && back == SkipWhileOnGenerator(f, old(Elements(xs)))
  {
    var e1, e2 := DrainBoth(xs);
    front := TakeWhile(f, e1);
    if IsIterator(xs) {
      back := SkipWhileOnGenerator(f, e2);
    } else {
      back := SkipWhile(f, e2);
    }
  }

  /** `unzip2()`: `pluck(0)` of one fork and `pluck(1)` of the other. */
  method Unzip2Of<X, Y>(xs: Iterable<(X, Y)>) returns (firsts: seq<X>, seconds: seq<Y>)
    requires Wf(xs)
    modifies ReprOf(xs)
    ensures (firsts, seconds) == Unzip2(old(Elements(xs)))
  {
    var e1, e2 := DrainBoth(xs);
    firsts := Map((p: (X, Y)) => p.0, e1);
    seconds := Map((p: (X, Y)) => p.1, e2);
  }

  /** `repeat(xs, n)`: `n` rounds, each teeing `xs` afresh and walking the
      copy. */
  method RepeatOf<T>(xs: Iterable<T>, n: int) returns (out: seq<T>)
    requires Wf(xs)
    modifies ReprOf(xs)
    ensures out == Repeat(old(Elements(xs)), n)
  {
    ghost var e := Elements(xs);
    var cur := xs;
    var i := 0;
    out := [];
    while i < n
      invariant 0 <= i && (i == 0 || i <= n)
      invariant Wf(cur) && Elements(cur) == e
      invariant fresh(ReprOf(cur) - ReprOf(xs))
      invariant out == Repeat(e, i)
      decreases n - i
    {
      var copy;
      cur, copy := TeeAndDrain(cur);
      RepeatSnoc(e, i);
      out := out + copy;
      i := i + 1;
    }
  }

  /** `cycle(xs)` is `repeat` without an end: each further round extends
      what the earlier ones yielded, so its first `r` rounds are
      `repeat(xs, r)`; an empty input yields nothing, round after round. */
  lemma {:induction false} CycleRounds<T>(xs: seq<T>, r: nat, s: nat)
    requires r <= s
    ensures |Repeat(xs, r)| <= |Repeat(xs, s)|
    ensures Repeat(xs, r) == Repeat(xs, s)[..|Repeat(xs, r)|]
    ensures xs == [] ==> Repeat(xs, s) == []
    decreases s
  {
    if r < s {
      CycleRounds(xs, r, s - 1);
      RepeatSnoc(xs, s - 1);
    }
  }

  /** `product2(as, bs)`: for each element of `as`, `bs` is teed afresh and
      the copy walked, pairing the element with each of its values. The
      model walks `as` to its end first: it shares no object with `bs`, so
      when its elements are pulled changes nothing either yields. */
  method Product2Of<A, B>(heads: Iterable<A>, bs: Iterable<B>) returns (out: seq<(A, B)>)
    requires Wf(heads) && Wf(bs)
    requires ReprOf(heads) !! ReprOf(bs)
    modifies ReprOf(heads), ReprOf(bs)
    ensures out == Product2(old(Elements(heads)), old(Elements(bs)))
  {
    var ea := Drain(heads);
    var rest;
    out, rest := PairEach(ea, bs);
  }

  /** The loop of `product2` over the elements `ea` of `as`; `rest` is what
      the variable `bs` holds at its end, still yielding what `bs` had. */
  method PairEach<A, B>(ea: seq<A>, bs: Iterable<B>) returns (out: seq<(A, B)>, rest: Iterable<B>)
    requires Wf(bs)
    modifies ReprOf(bs)
    ensures out == Product2(ea, old(Elements(bs)))
    ensures Wf(rest) && Elements(rest) == old(Elements(bs)) && fresh(ReprOf(rest) - ReprOf(bs))
  {
    ghost var eb := Elements(bs);
    var cur := bs;
    out := [];
    for i := 0 to |ea|
      invariant Wf(cur) && Elements(cur) == eb
      invariant fresh(ReprOf(cur) - ReprOf(bs))
      invariant Product2Inv(ea, i, eb, out)
    {
      var ys;
      cur, ys := TeeAndDrain(cur);
      Product2Next(ea, i, eb, out);
      out := out + Map((b: B) => (ea[i], b), ys);
    }
    Product2Done(ea, eb, out);
    rest := cur;
  }

  /** After `i` elements of `as`, their pairs. */
  ghost predicate Product2Inv<A, B>(ea: seq<A>, i: nat, eb: seq<B>, out: seq<(A, B)>)
  {
    i <= |ea| && out == Product2(ea[..i], eb)
  }

  lemma Product2Next<A, B>(ea: seq<A>, i: nat, eb: seq<B>, out: seq<(A, B)>)
    requires i < |ea| && Product2Inv(ea, i, eb, out)
    ensures Product2Inv(ea, i + 1, eb, out + Map((b: B) => (ea[i], b), eb))
  {
    Product2Snoc(ea[..i], ea[i], eb);
    assert ea[..i + 1] == ea[..i] + [ea[i]];
  }

  lemma Product2Done<A, B>(ea: seq<A>, eb: seq<B>, out: seq<(A, B)>)
    requires Product2Inv(ea, |ea|, eb, out)
    ensures out == Product2(ea, eb)
  {
    assert ea[..|ea|] == ea;
  }

  /** One more element of `as` adds its pairs after all the earlier ones. */
  lemma {:induction false} Product2Snoc<A, B>(heads: seq<A>, a: A, bs: seq<B>)
    ensures Product2(heads + [a], bs) == Product2(heads, bs) + Map((b: B) => (a, b), bs)
    decreases |heads|
  {
    if heads == [] {
      assert heads + [a] == [a];
    } else {
      assert (heads + [a])[1..] == heads[1..] + [a];
      Product2Snoc(heads[1..], a, bs);
    }
  }

  /** `product3(as, bs, cs)`: for each element of `as`, `bs` is teed afresh
      and its copy walked; for each of its values, `cs` is teed afresh and
      its copy walked. The three share no object, so the order in which
      they are pulled changes nothing any of them yields: the model walks
      `as` to its end first, then does the tees of `bs`, then those of
      `cs`. */
  method Product3Of<A, B, C>(heads: Iterable<A>, bs: Iterable<B>, cs: Iterable<C>) returns (out: seq<(A, B, C)>)
    requires Wf(heads) && Wf(bs) && Wf(cs)
    requires ReprOf(heads) !! ReprOf(bs) && ReprOf(heads) !! ReprOf(cs) && ReprOf(bs) !! ReprOf(cs)
    modifies ReprOf(heads), ReprOf(bs), ReprOf(cs)
    ensures out == Product3(old(Elements(heads)), old(Elements(bs)), old(Elements(cs)))
  {
    var ea := Drain(heads);
    var rounds := TeeRounds(bs, |ea|);
    out := TripleEach(ea, rounds, cs);
  }

  /** The tees of `bs` in `product3`, one per element of `as`: each copy
      yields what `bs` had. */
  method TeeRounds<T>(xs: Iterable<T>, n: nat) returns (rounds: seq<seq<T>>)
    requires Wf(xs)
    modifies ReprOf(xs)
    ensures |rounds| == n && forall k :: 0 <= k < n ==> rounds[k] == old(Elements(xs))
  {
    ghost var e := Elements(xs);
    var cur := xs;
    rounds := [];
    for i := 0 to n
      invariant Wf(cur) && Elements(cur) == e
      invariant fresh(ReprOf(cur) - ReprOf(xs))
      invariant |rounds| == i && forall k :: 0 <= k < i ==> rounds[k] == e
    {
      var copy;
      cur, copy := TeeAndDrain(cur);
      rounds := rounds + [copy];
    }
  }

  /** The outer loop of `product3` over the elements `ea` of `as`, given
      what each copy of `bs` yielded. */
  method TripleEach<A, B, C>(ea: seq<A>, rounds: seq<seq<B>>, cs: Iterable<C>) returns (out: seq<(A, B, C)>)
    requires |rounds| == |ea| && forall k :: 0 <= k < |ea| ==> rounds[k] == rounds[0]
    requires Wf(cs)
    modifies ReprOf(cs)
    ensures ea != [] ==> out == Product3(ea, rounds[0], old(Elements(cs)))
    ensures ea == [] ==> out == []
  {
    ghost var eb := if ea == [] then [] else rounds[0];
    ghost var ec := Elements(cs);
    var cur := cs;
    out := [];
    for i := 0 to |ea|
      invariant Wf(cur) && Elements(cur) == ec && fresh(ReprOf(cur) - ReprOf(cs))
      invariant Product3Inv(ea, i, eb, ec, out)
    {
      var pairs;
      pairs, cur := PairEach(rounds[i], cur);
      Product3Next(ea, i, eb, ec, out);
      out := out + Map((p: (B, C)) => (ea[i], p.0, p.1), pairs);
    }
    Product3Done(ea, eb, ec, out);
  }

  /** After `i` elements of `as`, their triples. */
  ghost predicate Product3Inv<A, B, C>(ea: seq<A>, i: nat, eb: seq<B>, ec: seq<C>, out: seq<(A, B, C)>)
  {
    i <= |ea| && out == Product3(ea[..i], eb, ec)
  }

  lemma Product3Next<A, B, C>(ea: seq<A>, i: nat, eb: seq<B>, ec: seq<C>, out: seq<(A, B, C)>)
    requires i < |ea| && Product3Inv(ea, i, eb, ec, out)
    ensures Product3Inv(ea, i + 1, eb, ec, out + Map((p: (B, C)) => (ea[i], p.0, p.1), Product2(eb, ec)))
  {
    Product3Snoc(ea[..i], ea[i], eb, ec);
    assert ea[..i + 1] == ea[..i] + [ea[i]];
  }

  lemma Product3Done<A, B, C>(ea: seq<A>, eb: seq<B>, ec: seq<C>, out: seq<(A, B, C)>)
    requires Product3Inv(ea, |ea|, eb, ec, out)
    ensures out == Product3(ea, eb, ec)
  {
    assert ea[..|ea|] == ea;
  }

  /** One more element of `as` adds its triples after all the earlier ones. */
  lemma Product3Snoc<A, B, C>(heads: seq<A>, a: A, bs: seq<B>, cs: seq<C>)
    ensures Product3(heads + [a], bs, cs)
      == Product3(heads, bs, cs) + Map((p: (B, C)) => (a, p.0, p.1), Product2(bs, cs))
  {
    var flat := (p: (A, (B, C))) => (p.0, p.1.0, p.1.1);
    var pairs := Product2(bs, cs);
    var row := Map((q: (B, C)) => (a, q), pairs);
    Product2Snoc(heads, a, pairs);
    MapAppend(flat, Product2(heads, pairs), row);
    MapAt(flat, row);
    MapAt((q: (B, C)) => (a, q), pairs);
    MapAt((p: (B, C)) => (a, p.0, p.1), pairs);
    assert Map(flat, row) == Map((p: (B, C)) => (a, p.0, p.1), pairs);
  }

  /** `combinations2(xs)`: `tee(xs)` gives `as` and `bs`; for the `i`-th
      element of `as` (from 1), `bs` is teed afresh and its copy walked
      past its first `i` elements. The model walks `as` to its end first:
      each fork of a tee yields the same whatever the order of reading, and
      the two forks are alike, so `as` is the one walked at once. */
  method Combinations2Of<T>(xs: Iterable<T>) returns (out: seq<(T, T)>)
    requires Wf(xs)
    modifies ReprOf(xs)
    ensures out == Combinations2(old(Elements(xs)))
  {
    var bs, ea := TeeAndDrain(xs);
    out := PairLater(ea, bs);
  }

  /** The loop of `combinations2` over the elements `ea` of `as`, with `bs`
      yielding the same elements. */
  method PairLater<T>(ea: seq<T>, bs: Iterable<T>) returns (out: seq<(T, T)>)
    requires Wf(bs) && Elements(bs) == ea
    modifies ReprOf(bs)
    ensures out == Combinations2(ea)
  {
    var cur := bs;
    out := [];
    for i := 0 to |ea|
      invariant Wf(cur) && Elements(cur) == ea && fresh(ReprOf(cur) - ReprOf(bs))
      invariant Combinations2Inv(ea, i, out)
    {
      var ys;
      cur, ys := TeeAndDrain(cur);
      Combinations2Next(ea, i, out);
      out := out + Map((b: T) => (ea[i], b), Skip(i + 1, ys));
    }
    Combinations2Done(ea, out);
  }

  /** After `i` elements of `as`, their pairs, followed by those of the
      rest, are all the pairs. */
  ghost predicate Combinations2Inv<T>(ea: seq<T>, i: nat, out: seq<(T, T)>)
  {
    i <= |ea| && out + Combinations2(ea[i..]) == Combinations2(ea)
  }

  /** The pairs of the element at `i` with the later ones come first. */
  lemma Combinations2Next<T>(ea: seq<T>, i: nat, out: seq<(T, T)>)
    requires i < |ea| && Combinations2Inv(ea, i, out)
    ensures Combinations2Inv(ea, i + 1, out + Map((b: T) => (ea[i], b), Skip(i + 1, ea)))
  {
    assert ea[i..][1..] == ea[i + 1..];
  }

  lemma Combinations2Done<T>(ea: seq<T>, out: seq<(T, T)>)
    requires Combinations2Inv(ea, |ea|, out)
    ensures out == Combinations2(ea)
  {
  }
}
