/** The constructors of iter.ts (`range`, `concat`, `zip*`, `product*`,
    `combinations2`, `repeat`, `cycle`, `constantly`, `interleave`) and the
    operators built on them, each stated as the sequence it yields. Inputs
    are the sequences the argument iterables yield; a producer that never
    ends is stated through a bounded prefix. */
module Constructors {
  import opened Wrappers
  import opened Operators

  /** `Number.MAX_SAFE_INTEGER`, the default `end` of `range`. */
  const MAX_SAFE_INTEGER: int := 9007199254740991

  /** The loop test of `range(start, end, step)`: counting up while below
      `end` when `end > start`, counting down while above it otherwise. */
  predicate InRange(start: int, end: int, i: int)
  {
    if end > start then i < end else i > end
  }

  /** The values of the `range` loop from `i` on, at most `bound` of them. */
  function RangeFrom(start: int, end: int, step: int, i: int, bound: nat): (r: seq<int>)
    decreases bound
  {
    if bound == 0 || !InRange(start, end, i) then []
    else [i] + RangeFrom(start, end, step, i + step, bound - 1)
  }

  /** The `k`-th value from `i` is `i + k * step`; the loop stops at the
      first value failing the test, or after `bound` values. */
  lemma {:induction false} RangeFromAt(start: int, end: int, step: int, i: int, bound: nat)
    ensures var r := RangeFrom(start, end, step, i, bound);
      && |r| <= bound
      && (forall k :: 0 <= k < |r| ==> r[k] == i + k * step && InRange(start, end, r[k]))
      && (|r| < bound ==> !InRange(start, end, i + |r| * step))
    decreases bound
  {
    var r := RangeFrom(start, end, step, i, bound);
    if bound > 0 && InRange(start, end, i) {
      var r' := RangeFrom(start, end, step, i + step, bound - 1);
      RangeFromAt(start, end, step, i + step, bound - 1);
      forall k | 0 < k < |r|
        ensures r[k] == i + k * step
      {
        MulSucc(k - 1, step);
      }
      MulSucc(|r'|, step);
    }
  }

  /** `range(start, end, step)`: its first `bound` values (all of them when
      it yields fewer). */
  function Range(start: int, end: int, step: int, bound: nat): (r: seq<int>)
    ensures |r| <= bound
    ensures forall k :: 0 <= k < |r| ==> r[k] == start + k * step && InRange(start, end, r[k])
    ensures |r| < bound ==> !InRange(start, end, start + |r| * step)
  {
    RangeFromAt(start, end, step, start, bound);
    RangeFrom(start, end, step, start, bound)
  }

  /** Counting up by a positive step yields `ceil((end - start) / step)`
      values, `end` excluded. */
  lemma RangeUp(start: int, end: int, step: int, bound: nat)
    requires start < end && 1 <= step && bound >= end - start
    ensures var r := Range(start, end, step, bound);
      |r| > 0 && (|r| - 1) * step < end - start <= |r| * step
  {
    var r := Range(start, end, step, bound);
    assert r[0] == start;
    assert start + (|r| - 1) * step == r[|r| - 1] < end;
    if |r| == bound {
      assert |r| * step >= |r| * 1;
    }
  }

  /** Counting down by a negative step yields `ceil((start - end) / -step)`
      values, `end` excluded. */
  lemma RangeDown(start: int, end: int, step: int, bound: nat)
    requires end < start && step <= -1 && bound >= start - end
    ensures var r := Range(start, end, step, bound);
      |r| > 0 && (|r| - 1) * -step < start - end <= |r| * -step
  {
    var r := Range(start, end, step, bound);
    assert r[0] == start;
    assert start + (|r| - 1) * step == r[|r| - 1] > end;
    if |r| == bound {
      assert |r| * -step >= |r| * 1;
    }
  }

  /** A step against the direction of the test never ends the loop, and an
      `end` equal to `start` yields nothing. */
  lemma RangeEndless(start: int, end: int, step: int, bound: nat)
    ensures start < end && step <= 0 ==> |Range(start, end, step, bound)| == bound
    ensures end < start && step >= 0 ==> |Range(start, end, step, bound)| == bound
    ensures Range(start, start, step, bound) == []
  {
    var n := |Range(start, end, step, bound)|;
    if start < end && step <= 0 {
      assert n * step <= 0;
    }
    if end < start && step >= 0 {
      assert n * step >= 0;
    }
  }

  /** `range()` with its defaults counts 0, 1, 2, ... up to
      `MAX_SAFE_INTEGER`, which it excludes. */
  lemma RangeDefaults(bound: nat)
    requires bound <= MAX_SAFE_INTEGER
    ensures var r := Range(0, MAX_SAFE_INTEGER, 1, bound);
      |r| == bound && forall k :: 0 <= k < bound ==> r[k] == k
  {
  }

  /** `concat(...xss)`: the inputs one after another. */
  function Concat<T>(xss: seq<seq<T>>): (r: seq<T>)
    decreases |xss|
  {
    if xss == [] then [] else xss[0] + Concat(xss[1..])
  }

  /** Concatenating two lists of inputs concatenates their outputs. */
  lemma {:induction false} ConcatAppend<T>(a: seq<seq<T>>, b: seq<seq<T>>)
    ensures Concat(a + b) == Concat(a) + Concat(b)
    decreases |a|
  {
    if a != [] {
      assert (a + b)[1..] == a[1..] + b;
      ConcatAppend(a[1..], b);
      assert Concat(a + b) == a[0] + Concat(a[1..] + b);
    } else {
      assert a + b == b;
    }
  }

  /** Two `for...of` loops one after the other, each yielding its input's
      elements one by one: the body of `startWith` (extra elements first)
      and of `endWith` (extra elements last). */
  function Sequenced<T>(first: seq<T>, second: seq<T>): (r: seq<T>)
    ensures |r| == |first| + |second|
    decreases |first|
  {
    if first == [] then second else [first[0]] + Sequenced(first[1..], second)
  }

  /** The two loops yield the first input followed by the second. */
  lemma {:induction false} SequencedAppend<T>(first: seq<T>, second: seq<T>)
    ensures Sequenced(first, second) == first + second
    decreases |first|
  {
    if first != [] {
      SequencedAppend(first[1..], second);
      assert first == [first[0]] + first[1..];
    }
  }

  /** `startWith(...as)` and `endWith(...zs)` are `concat` with the extra
      elements in front, respectively behind. */
  lemma StartEndWith<T>(heads: seq<T>, xs: seq<T>, zs: seq<T>)
    ensures Sequenced(heads, xs) == Concat([heads, xs]) == heads + xs
    ensures Sequenced(xs, zs) == Concat([xs, zs]) == xs + zs
  {
    SequencedAppend(heads, xs);
    SequencedAppend(xs, zs);
    assert [heads, xs][1..] == [xs] && [xs][1..] == [];
    assert [xs, zs][1..] == [zs] && [zs][1..] == [];
    assert Concat([xs]) == xs + [] == xs;
    assert Concat([zs]) == zs + [] == zs;
  }

  /** `flatMap(f)`: `f` applied to each element of each inner input. */
  function FlatMap<A, B>(f: A -> B, xss: seq<seq<A>>): (r: seq<B>)
    decreases |xss|
  {
    if xss == [] then [] else Map(f, xss[0]) + FlatMap(f, xss[1..])
  }

  /** Mapping distributes over concatenation. */
  lemma MapAppend<A, B>(f: A -> B, a: seq<A>, b: seq<A>)
    ensures Map(f, a + b) == Map(f, a) + Map(f, b)
  {
    MapAt(f, a + b);
    MapAt(f, a);
    MapAt(f, b);
    assert |Map(f, a + b)| == |Map(f, a) + Map(f, b)|;
  }

  /** `flatMap(f)` is `map(f)` over the concatenated inputs. */
  lemma {:induction false} FlatMapIsMapConcat<A, B>(f: A -> B, xss: seq<seq<A>>)
    ensures FlatMap(f, xss) == Map(f, Concat(xss))
    decreases |xss|
  {
    if xss != [] {
      FlatMapIsMapConcat(f, xss[1..]);
      MapAppend(f, xss[0], Concat(xss[1..]));
    }
  }

  /** `zip2(xs, ys)`: pairs while both inputs have a value. */
  function Zip2<X, Y>(xs: seq<X>, ys: seq<Y>): (r: seq<(X, Y)>)
    ensures |r| == if |xs| < |ys| then |xs| else |ys|
    ensures forall i :: 0 <= i < |r| ==> r[i] == (xs[i], ys[i])
    decreases |xs|
  {
    if xs == [] || ys == [] then [] else [(xs[0], ys[0])] + Zip2(xs[1..], ys[1..])
  }

  /** `unzip2()`: the first and the second components. */
  function Unzip2<X, Y>(ps: seq<(X, Y)>): (r: (seq<X>, seq<Y>))
    ensures |r.0| == |ps| && |r.1| == |ps|
    ensures forall i :: 0 <= i < |ps| ==> ps[i] == (r.0[i], r.1[i])
  {
    MapAt((p: (X, Y)) => p.0, ps);
    MapAt((p: (X, Y)) => p.1, ps);
    (Map((p: (X, Y)) => p.0, ps), Map((p: (X, Y)) => p.1, ps))
  }

  /** `unzip2` undoes `zip2` up to the shorter input's length. */
  lemma UnzipZip2<X, Y>(xs: seq<X>, ys: seq<Y>)
    ensures var m := if |xs| < |ys| then |xs| else |ys|;
      Unzip2(Zip2(xs, ys)) == (xs[..m], ys[..m])
  {
    var m := if |xs| < |ys| then |xs| else |ys|;
    var r := Unzip2(Zip2(xs, ys));
    assert |r.0| == m && forall i :: 0 <= i < m ==> r.0[i] == xs[i];
    assert r.0 == xs[..m];
    assert |r.1| == m && forall i :: 0 <= i < m ==> r.1[i] == ys[i];
    assert r.1 == ys[..m];
  }

  /** `zip2` undoes `unzip2`. */
  lemma ZipUnzip2<X, Y>(ps: seq<(X, Y)>)
    ensures Zip2(Unzip2(ps).0, Unzip2(ps).1) == ps
  {
  }

  /** `unzip3()`: the three components. */
  function Unzip3<X, Y, Z>(ts: seq<(X, Y, Z)>): (r: (seq<X>, seq<Y>, seq<Z>))
    ensures |r.0| == |ts| && |r.1| == |ts| && |r.2| == |ts|
    ensures forall i :: 0 <= i < |ts| ==> ts[i] == (r.0[i], r.1[i], r.2[i])
  {
    MapAt((t: (X, Y, Z)) => t.0, ts);
    MapAt((t: (X, Y, Z)) => t.1, ts);
    MapAt((t: (X, Y, Z)) => t.2, ts);
    (Map((t: (X, Y, Z)) => t.0, ts), Map((t: (X, Y, Z)) => t.1, ts), Map((t: (X, Y, Z)) => t.2, ts))
  }

  /** `x[key]` on an array `x`: `undefined` outside its indices. */
  function At<T>(key: int, row: seq<T>): (r: Option<T>)
    ensures r.Some? <==> 0 <= key < |row|
    ensures r.Some? ==> r.value == row[key]
  {
    if 0 <= key < |row| then Some(row[key]) else None
  }

  /** `pluck(key)` over arrays. */
  function Pluck<T>(key: int, rows: seq<seq<T>>): (r: seq<Option<T>>)
    ensures |r| == |rows|
    ensures forall i :: 0 <= i < |rows| ==> r[i] == At(key, rows[i])
  {
    MapAt((row: seq<T>) => At(key, row), rows);
    Map((row: seq<T>) => At(key, row), rows)
  }

  /** `unzip(n)`: `teeN` gives `max(n, 1)` copies of the input, and the
      `i`-th copy is plucked at `i`. */
  function Unzip<T>(n: int, rows: seq<seq<T>>): (r: seq<seq<Option<T>>>)
    ensures |r| == if n < 1 then 1 else n
    ensures forall i :: 0 <= i < |r| ==> r[i] == Pluck(i, rows)
  {
    seq(if n < 1 then 1 else n, i => Pluck(i, rows))
  }

  /** `unzip(n)` undoes `zip` up to the shortest input's length: the `i`-th
      output gives back the `i`-th input cut to that length, and an output
      past the number of inputs has nothing at every position. */
  lemma UnzipZip<T>(n: int, xss: seq<seq<T>>)
    requires xss != []
    ensures var m := MinLen(xss); var r := Unzip(n, Zip(xss, m));
      forall i :: 0 <= i < |r| ==> r[i] == if i < |xss| then Wrap(xss[i][..m]) else seq(m, _ => None)
  {
    var m := MinLen(xss);
    var r := Unzip(n, Zip(xss, m));
    forall i | 0 <= i < |r|
      ensures r[i] == if i < |xss| then Wrap(xss[i][..m]) else seq(m, _ => None)
    {
      if i < |xss| {
        WrapAt(xss[i][..m]);
      }
    }
  }

  /** `mapKeys(f)`: `f` applied to the first component of each pair. */
  function MapKeys<A, B, U>(f: A -> B, kvs: seq<(A, U)>): (r: seq<(B, U)>)
    ensures |r| == |kvs|
    ensures forall i :: 0 <= i < |kvs| ==> r[i] == (f(kvs[i].0), kvs[i].1)
  {
    MapAt((kv: (A, U)) => (f(kv.0), kv.1), kvs);
    Map((kv: (A, U)) => (f(kv.0), kv.1), kvs)
  }

  /** `mapValues(f)`: `f` applied to the second component of each pair. */
  function MapValues<A, B, U>(f: A -> B, kvs: seq<(U, A)>): (r: seq<(U, B)>)
    ensures |r| == |kvs|
    ensures forall i :: 0 <= i < |kvs| ==> r[i] == (kvs[i].0, f(kvs[i].1))
  {
    MapAt((kv: (U, A)) => (kv.0, f(kv.1)), kvs);
    Map((kv: (U, A)) => (kv.0, f(kv.1)), kvs)
  }

  /** `replaceWhen(pf, ys)`: walks `zip2(xs, ys)`, yielding `y` in place of
      each `x` that satisfies `pf`. */
  function ReplaceWhen<X>(pf: X -> bool, ys: seq<X>, xs: seq<X>): (r: seq<X>)
    ensures |r| == if |xs| < |ys| then |xs| else |ys|
    ensures forall i :: 0 <= i < |r| ==> r[i] == if pf(xs[i]) then ys[i] else xs[i]
  {
    MapAt((p: (X, X)) => if pf(p.0) then p.1 else p.0, Zip2(xs, ys));
    Map((p: (X, X)) => if pf(p.0) then p.1 else p.0, Zip2(xs, ys))
  }

  /** Whether every input has a `k`-th value. */
  predicate HasRow<T>(xss: seq<seq<T>>, k: nat)
  {
    forall j :: 0 <= j < |xss| ==> k < |xss[j]|
  }

  /** The `k`-th values of all inputs, in argument order. */
  function Row<T>(xss: seq<seq<T>>, k: nat): (r: seq<T>)
    requires HasRow(xss, k)
    ensures |r| == |xss| && forall j :: 0 <= j < |xss| ==> r[j] == xss[j][k]
  {
    seq(|xss|, j requires 0 <= j < |xss| => xss[j][k])
  }

  /** The `zip` loop from row `k`, at most `bound` more rows. */
  function ZipFrom<T>(xss: seq<seq<T>>, k: nat, bound: nat): seq<seq<T>>
    decreases bound
  {
    if bound == 0 || !HasRow(xss, k) then [] else [Row(xss, k)] + ZipFrom(xss, k + 1, bound - 1)
  }

  /** The shortest input's length. */
  function MinLen<T>(xss: seq<seq<T>>): (m: nat)
    requires xss != []
    ensures forall j :: 0 <= j < |xss| ==> m <= |xss[j]|
    ensures exists j :: 0 <= j < |xss| && m == |xss[j]|
    decreases |xss|
  {
    if |xss| == 1 then |xss[0]|
    else
      var m := MinLen(xss[1..]);
      assert forall j :: 1 <= j < |xss| ==> xss[j] == xss[1..][j - 1];
      if |xss[0]| < m then |xss[0]| else m
  }

  /** The `zip` loop from row `k` yields, in order, the rows `m` from `k` on. */
  lemma {:induction false} ZipFromRows<T>(xss: seq<seq<T>>, k: nat, bound: nat)
    ensures forall m :: k <= m < k + |ZipFrom(xss, k, bound)| ==>
      HasRow(xss, m) && ZipFrom(xss, k, bound)[m - k] == Row(xss, m)
    decreases bound
  {
    if bound > 0 && HasRow(xss, k) {
      ZipFromRows(xss, k + 1, bound - 1);
      var r' := ZipFrom(xss, k + 1, bound - 1);
      assert ZipFrom(xss, k, bound) == [Row(xss, k)] + r';
      forall m | k <= m < k + |ZipFrom(xss, k, bound)|
        ensures HasRow(xss, m) && ZipFrom(xss, k, bound)[m - k] == Row(xss, m)
      {
        if m > k {
          assert HasRow(xss, m) && r'[m - (k + 1)] == Row(xss, m);
        }
      }
    } else {
      assert ZipFrom(xss, k, bound) == [];
    }
  }

  /** The `zip` loop from row `k` stops at the shortest input's length (or
      after `bound` rows when there are no inputs). */
  lemma {:induction false} ZipFromLength<T>(xss: seq<seq<T>>, k: nat, bound: nat)
    ensures xss == [] ==> |ZipFrom(xss, k, bound)| == bound
    ensures xss != [] && k + bound >= MinLen(xss) ==>
      |ZipFrom(xss, k, bound)| == if k < MinLen(xss) then MinLen(xss) - k else 0
    decreases bound
  {
    if bound == 0 || !HasRow(xss, k) {
      if bound > 0 && xss != [] {
        var j :| 0 <= j < |xss| && k >= |xss[j]|;
        assert k >= MinLen(xss);
      }
    } else {
      ZipFromLength(xss, k + 1, bound - 1);
      assert |ZipFrom(xss, k, bound)| == 1 + |ZipFrom(xss, k + 1, bound - 1)|;
    }
  }

  /** `zip(...xss)`: its first `bound` rows; the `k`-th row holds the `k`-th
      value of every input, and the rows stop at the shortest input. With
      no inputs the rows are empty and never stop. */
  function Zip<T>(xss: seq<seq<T>>, bound: nat): (r: seq<seq<T>>)
    ensures forall k :: 0 <= k < |r| ==> HasRow(xss, k) && r[k] == Row(xss, k)
    ensures xss == [] ==> |r| == bound
    ensures xss != [] && bound >= MinLen(xss) ==> |r| == MinLen(xss)
  {
    ZipFromRows(xss, 0, bound);
    ZipFromLength(xss, 0, bound);
    ZipFrom(xss, 0, bound)
  }

  /** `zip(xs, ys)` and `zip2(xs, ys)` yield the same values, as arrays
      respectively as pairs. */
  lemma ZipAgreesWithZip2<T>(xs: seq<T>, ys: seq<T>, bound: nat)
    requires bound >= |xs| || bound >= |ys|
    ensures var z := Zip([xs, ys], bound);
      && |z| == |Zip2(xs, ys)|
      && forall k :: 0 <= k < |z| ==> z[k] == [Zip2(xs, ys)[k].0, Zip2(xs, ys)[k].1]
  {
    var xss := [xs, ys];
    assert MinLen(xss) == if |xs| < |ys| then |xs| else |ys|;
    var z := Zip(xss, bound);
    forall k | 0 <= k < |z|
      ensures z[k] == [Zip2(xs, ys)[k].0, Zip2(xs, ys)[k].1]
    {
      assert z[k] == Row(xss, k);
    }
  }

  /** The longest input's length. */
  function MaxLen<T>(xss: seq<seq<T>>): (m: nat)
    ensures forall j :: 0 <= j < |xss| ==> |xss[j]| <= m
    ensures xss != [] ==> exists j :: 0 <= j < |xss| && m == |xss[j]|
    ensures xss == [] ==> m == 0
    decreases |xss|
  {
    if xss == [] then 0
    else
      var m := MaxLen(xss[1..]);
      assert forall j :: 1 <= j < |xss| ==> xss[j] == xss[1..][j - 1];
      if |xss[0]| > m then |xss[0]| else m
  }

  /** The `k`-th values of all inputs, `undefined` for a finished one. */
  function PaddedRow<T>(xss: seq<seq<T>>, k: nat): (r: seq<Option<T>>)
    ensures |r| == |xss| && forall j :: 0 <= j < |xss| ==> r[j] == At(k, xss[j])
  {
    seq(|xss|, j requires 0 <= j < |xss| => At(k, xss[j]))
  }

  /** `zipOuter(...xss)`: a row while any input has a value, padded with
      `undefined`; with no inputs, nothing. */
  function ZipOuter<T>(xss: seq<seq<T>>): (r: seq<seq<Option<T>>>)
    ensures |r| == MaxLen(xss)
    ensures forall k :: 0 <= k < |r| ==> r[k] == PaddedRow(xss, k)
  {
    seq(MaxLen(xss), k requires 0 <= k => PaddedRow(xss, k))
  }

  /** Whether a step of `zipOuter` found a value in some input. */
  predicate AnyValue<T>(row: seq<Option<T>>)
  {
    exists j :: 0 <= j < |row| && row[j].Some?
  }

  /** `zipOuter` stops at the first step where every input is done: each
      row it yields has a value somewhere, and the next row would have none. */
  lemma ZipOuterStops<T>(xss: seq<seq<T>>)
    ensures forall k :: 0 <= k < |ZipOuter(xss)| ==> AnyValue(ZipOuter(xss)[k])
    ensures !AnyValue(PaddedRow(xss, |ZipOuter(xss)|))
  {
    forall k | 0 <= k < |ZipOuter(xss)|
      ensures AnyValue(ZipOuter(xss)[k])
    {
      var j :| 0 <= j < |xss| && MaxLen(xss) == |xss[j]|;
      assert ZipOuter(xss)[k][j] == At(k, xss[j]);
    }
  }

  /** `zipOuter` agrees with `zip` on the rows where every input has a
      value. */
  lemma ZipOuterExtendsZip<T>(xss: seq<seq<T>>)
    requires xss != []
    ensures forall k :: 0 <= k < MinLen(xss) ==> ZipOuter(xss)[k] == Wrap(Zip(xss, MinLen(xss))[k])
  {
    var z := Zip(xss, MinLen(xss));
    var m := MaxLen(xss);
    var j :| 0 <= j < |xss| && MinLen(xss) == |xss[j]|;
    assert MinLen(xss) <= m;
    forall k | 0 <= k < MinLen(xss) {
      WrapAt(z[k]);
    }
  }

  /** The rounds of `interleave` from round `k` to round `m`. */
  function Rounds<T>(xss: seq<seq<T>>, k: nat, m: nat): seq<T>
    requires forall j :: 0 <= j < |xss| ==> m <= |xss[j]|
    decreases m - k
  {
    if k >= m then [] else Row(xss, k) + Rounds(xss, k + 1, m)
  }

  /** The round of `interleave` that ends it: the `k`-th values of the
      inputs before the first one that has none. */
  function CutRow<T>(xss: seq<seq<T>>, k: nat): (r: seq<T>)
    ensures |r| <= |xss|
    ensures forall j :: 0 <= j < |r| ==> k < |xss[j]| && r[j] == xss[j][k]
    ensures |r| < |xss| ==> k >= |xss[|r|]|
    decreases |xss|
  {
    if xss == [] || k >= |xss[0]| then [] else [xss[0][k]] + CutRow(xss[1..], k)
  }

  /** `interleave(...xss)`: whole rounds while every input has a value, then
      the values of the last round up to the first finished input. */
  function Interleave<T>(xss: seq<seq<T>>): (r: seq<T>)
    requires xss != []
    ensures |r| == MinLen(xss) * |xss| + |CutRow(xss, MinLen(xss))|
    ensures |CutRow(xss, MinLen(xss))| < |xss|
  {
    var m := MinLen(xss);
    RoundsLength(xss, 0, m);
    var j :| 0 <= j < |xss| && m == |xss[j]|;
    CutRowStops(xss, m, j);
    Rounds(xss, 0, m) + CutRow(xss, m)
  }

  lemma {:induction false} RoundsLength<T>(xss: seq<seq<T>>, k: nat, m: nat)
    requires forall j :: 0 <= j < |xss| ==> m <= |xss[j]|
    ensures |Rounds(xss, k, m)| == if k >= m then 0 else (m - k) * |xss|
    decreases m - k
  {
    if k < m {
      RoundsLength(xss, k + 1, m);
      MulSucc(m - k - 1, |xss|);
    }
  }

  lemma {:induction false} CutRowStops<T>(xss: seq<seq<T>>, k: nat, j: nat)
    requires j < |xss| && k >= |xss[j]|
    ensures |CutRow(xss, k)| <= j
    decreases |xss|
  {
    if xss != [] && k < |xss[0]| {
      CutRowStops(xss[1..], k, j - 1);
    }
  }

  /** Within the rounds, the value of input `j` in round `k + a` comes at
      `a * |xss| + j`. */
  lemma {:induction false} RoundsAt<T>(xss: seq<seq<T>>, k: nat, m: nat, a: nat, j: nat)
    requires forall j :: 0 <= j < |xss| ==> m <= |xss[j]|
    requires k + a < m && j < |xss|
    ensures a * |xss| + j < |Rounds(xss, k, m)|
    ensures Rounds(xss, k, m)[a * |xss| + j] == xss[j][k + a]
    decreases m - k
  {
    var n := |xss|;
    assert Rounds(xss, k, m) == Row(xss, k) + Rounds(xss, k + 1, m);
    if a == 0 {
      assert a * n + j == j;
    } else {
      RoundsAt(xss, k + 1, m, a - 1, j);
      var t := (a - 1) * n + j;
      MulSucc(a - 1, n);
      assert a * n + j == n + t;
      assert Rounds(xss, k, m)[n + t] == Rounds(xss, k + 1, m)[t];
    }
  }

  /** `product2(as, bs)`: one pair per element of `as` and of `bs`. */
  function Product2<A, B>(heads: seq<A>, bs: seq<B>): (r: seq<(A, B)>)
    ensures |r| == |heads| * |bs|
    decreases |heads|
  {
    if heads == [] then []
    else
      MulSucc(|heads| - 1, |bs|);
      Map((b: B) => (heads[0], b), bs) + Product2(heads[1..], bs)
  }

  /** The pairs of `product2` are in lexicographic order: `(as[i], bs[j])`
      at `i * |bs| + j`. */
  lemma {:induction false} Product2At<A, B>(heads: seq<A>, bs: seq<B>, i: nat, j: nat)
    requires i < |heads| && j < |bs|
    ensures i * |bs| + j < |Product2(heads, bs)|
    ensures Product2(heads, bs)[i * |bs| + j] == (heads[i], bs[j])
    decreases |heads|
  {
    MulSucc(|heads| - 1, |bs|);
    MapAt((b: B) => (heads[0], b), bs);
    if i > 0 {
      Product2At(heads[1..], bs, i - 1, j);
      MulSucc(i - 1, |bs|);
    }
  }

  /** `product3(as, bs, cs)`: `product2(as, product2(bs, cs))` with each pair
      flattened into a triple. */
  function Product3<A, B, C>(heads: seq<A>, bs: seq<B>, cs: seq<C>): (r: seq<(A, B, C)>)
    ensures |r| == |heads| * (|bs| * |cs|)
  {
    Map((p: (A, (B, C))) => (p.0, p.1.0, p.1.1), Product2(heads, Product2(bs, cs)))
  }

  /** The triples of `product3` are in lexicographic order: `(as[i], bs[j],
      cs[k])` at `i * (|bs| * |cs|) + (j * |cs| + k)`. */
  lemma Product3At<A, B, C>(heads: seq<A>, bs: seq<B>, cs: seq<C>, i: nat, j: nat, k: nat)
    requires i < |heads| && j < |bs| && k < |cs|
    ensures j * |cs| + k < |bs| * |cs|
    ensures i * (|bs| * |cs|) + (j * |cs| + k) < |Product3(heads, bs, cs)|
    ensures Product3(heads, bs, cs)[i * (|bs| * |cs|) + (j * |cs| + k)] == (heads[i], bs[j], cs[k])
  {
    Product2At(bs, cs, j, k);
    Product2At(heads, Product2(bs, cs), i, j * |cs| + k);
    MapAt((p: (A, (B, C))) => (p.0, p.1.0, p.1.1), Product2(heads, Product2(bs, cs)));
  }

  /** `combinations2(xs)`: each element paired with every later one, in
      order. */
  function Combinations2<T>(xs: seq<T>): (r: seq<(T, T)>)
    ensures 2 * |r| == |xs| * (|xs| - 1)
    decreases |xs|
  {
    if xs == [] then []
    else
      var r := Map((b: T) => (xs[0], b), xs[1..]) + Combinations2(xs[1..]);
      assert |xs| * (|xs| - 1) == 2 * (|xs| - 1) + (|xs| - 1) * (|xs| - 2);
      r
  }

  /** The pairs of `combinations2` are exactly those of two elements in
      increasing position. */
  lemma {:induction false} Combinations2Pairs<T>(xs: seq<T>, a: T, b: T)
    ensures (a, b) in Combinations2(xs) <==> exists i, j :: 0 <= i < j < |xs| && a == xs[i] && b == xs[j]
    decreases |xs|
  {
    if xs != [] {
      Combinations2Pairs(xs[1..], a, b);
      var head := Map((b: T) => (xs[0], b), xs[1..]);
      MapAt((b: T) => (xs[0], b), xs[1..]);
      if (a, b) in head {
        var j :| 0 <= j < |head| && head[j] == (a, b);
        assert a == xs[0] && b == xs[j + 1];
      }
      if i, j :| 0 <= i < j < |xs| && a == xs[i] && b == xs[j] {
        if i == 0 {
          assert head[j - 1] == (a, b);
        } else {
          assert a == xs[1..][i - 1] && b == xs[1..][j - 1];
        }
      }
    }
  }

  /** `repeat(xs, n)`: `xs` walked `n` times. */
  function Repeat<T>(xs: seq<T>, n: int): (r: seq<T>)
    ensures |r| == (if n <= 0 then 0 else n) * |xs|
    decreases n
  {
    if n <= 0 then []
    else
      MulSucc(n - 1, |xs|);
      xs + Repeat(xs, n - 1)
  }

  /** In `repeat(xs, n)`, walk `a` (from 0) yields `xs[j]` at
      `a * |xs| + j`. */
  lemma {:induction false} RepeatAt<T>(xs: seq<T>, n: int, a: nat, j: nat)
    requires a < n && j < |xs|
    ensures a * |xs| + j < |Repeat(xs, n)|
    ensures Repeat(xs, n)[a * |xs| + j] == xs[j]
    decreases n
  {
    MulSucc(n - 1, |xs|);
    if a > 0 {
      RepeatAt(xs, n - 1, a - 1, j);
      MulSucc(a - 1, |xs|);
    }
  }

  /** `repeat(xs, n)` is `n` copies of `xs` joined: each copy follows the
      previous one. */
  lemma {:induction false} RepeatSnoc<T>(xs: seq<T>, n: nat)
    ensures Repeat(xs, n + 1) == Repeat(xs, n) + xs
    decreases n
  {
    if n > 0 {
      RepeatSnoc(xs, n - 1);
    }
  }

  /** `constantly(value)`: its first `bound` values. */
  function Constantly<T>(value: T, bound: nat): (r: seq<T>)
    ensures |r| == bound && forall i :: 0 <= i < bound ==> r[i] == value
    decreases bound
  {
    if bound == 0 then [] else [value] + Constantly(value, bound - 1)
  }
}
