/** The element-wise and prefix operators of iter.ts, each stated as the
    sequence it yields when walked to the end (or the value it returns),
    given the sequence its input yields. */
module Operators {
  import opened Wrappers

  /** `map(f)`: one output per input, in order. */
  function Map<A, B>(f: A -> B, xs: seq<A>): (r: seq<B>)
    ensures |r| == |xs|
    decreases |xs|
  {
    if xs == [] then [] else [f(xs[0])] + Map(f, xs[1..])
  }

  /** The `i`-th output of `map(f)` is `f` of the `i`-th input. */
  lemma {:induction false} MapAt<A, B>(f: A -> B, xs: seq<A>)
    ensures forall i :: 0 <= i < |xs| ==> Map(f, xs)[i] == f(xs[i])
    decreases |xs|
  {
    if xs != [] {
      MapAt(f, xs[1..]);
      forall i | 1 <= i < |xs|
        ensures Map(f, xs)[i] == f(xs[i])
      {
        assert Map(f, xs)[i] == Map(f, xs[1..])[i - 1];
      }
    }
  }

  /** The values of `xs` as yielded: none of them is `undefined`. */
  function Wrap<T>(xs: seq<T>): (r: seq<Option<T>>)
    ensures |r| == |xs|
    decreases |xs|
  {
    if xs == [] then [] else [Some(xs[0])] + Wrap(xs[1..])
  }

  /** The `i`-th wrapped value is the `i`-th value. */
  lemma {:induction false} WrapAt<T>(xs: seq<T>)
    ensures forall i :: 0 <= i < |xs| ==> Wrap(xs)[i] == Some(xs[i])
    decreases |xs|
  {
    if xs != [] {
      WrapAt(xs[1..]);
      forall i | 1 <= i < |xs|
        ensures Wrap(xs)[i] == Some(xs[i])
      {
        assert Wrap(xs)[i] == Wrap(xs[1..])[i - 1];
      }
    }
  }

  /** Wrapping distributes over concatenation. */
  lemma WrapAppend<T>(a: seq<T>, b: seq<T>)
    ensures Wrap(a + b) == Wrap(a) + Wrap(b)
  {
    WrapAt(a + b);
    WrapAt(a);
    WrapAt(b);
    assert |Wrap(a + b)| == |Wrap(a) + Wrap(b)|;
  }

  /** `filter(p)`: the elements satisfying `p`, in order. */
  function Filter<T>(p: T -> bool, xs: seq<T>): (r: seq<T>)
    ensures |r| <= |xs|
    decreases |xs|
  {
    if xs == [] then [] else (if p(xs[0]) then [xs[0]] else []) + Filter(p, xs[1..])
  }

  /** `filter(p)` drops only elements failing `p`: every element it yields
      satisfies `p` and is an input element, and every input element
      satisfying `p` is yielded. */
  lemma {:induction false} FilterKeeps<T>(p: T -> bool, xs: seq<T>)
    ensures forall i :: 0 <= i < |Filter(p, xs)| ==> p(Filter(p, xs)[i])
    ensures multiset(Filter(p, xs)) <= multiset(xs)
    ensures forall i :: 0 <= i < |xs| && p(xs[i]) ==> xs[i] in Filter(p, xs)
    decreases |xs|
  {
    if xs != [] {
      FilterKeeps(p, xs[1..]);
      assert xs == [xs[0]] + xs[1..];
      var head := if p(xs[0]) then [xs[0]] else [];
      forall i | 0 <= i < |Filter(p, xs)|
        ensures p(Filter(p, xs)[i])
      {
        if i >= |head| {
          assert Filter(p, xs)[i] == Filter(p, xs[1..])[i - |head|];
        }
      }
      forall i | 1 <= i < |xs| && p(xs[i])
        ensures xs[i] in Filter(p, xs)
      {
        assert xs[i] == xs[1..][i - 1];
      }
    }
  }

  /** The two halves `partition(p)` filters out of one input together hold
      every input element exactly once. */
  lemma {:induction false} FilterSplit<T>(p: T -> bool, xs: seq<T>)
    ensures multiset(Filter(p, xs)) + multiset(Filter(x => !p(x), xs)) == multiset(xs)
    ensures |Filter(p, xs)| + |Filter(x => !p(x), xs)| == |xs|
    decreases |xs|
  {
    if xs != [] {
      FilterSplit(p, xs[1..]);
      assert xs == [xs[0]] + xs[1..];
    }
  }

  /** `some(p)`: whether an element satisfies `p`. */
  function Any<T>(p: T -> bool, xs: seq<T>): bool
    decreases |xs|
  {
    xs != [] && (p(xs[0]) || Any(p, xs[1..]))
  }

  /** `some(p)` holds exactly when some element satisfies `p`; on no
      elements it is false. */
  lemma {:induction false} AnyExists<T>(p: T -> bool, xs: seq<T>)
    ensures Any(p, xs) <==> exists i :: 0 <= i < |xs| && p(xs[i])
    ensures xs == [] ==> !Any(p, xs)
    decreases |xs|
  {
    if xs != [] {
      AnyExists(p, xs[1..]);
      if exists i :: 0 <= i < |xs| && p(xs[i]) {
        var i :| 0 <= i < |xs| && p(xs[i]);
        if i > 0 {
          assert p(xs[1..][i - 1]);
        }
      }
    }
  }

  /** `every(p)`: whether all elements satisfy `p`. */
  function All<T>(p: T -> bool, xs: seq<T>): bool
    decreases |xs|
  {
    xs == [] || (p(xs[0]) && All(p, xs[1..]))
  }

  /** `every(p)` holds exactly when every element satisfies `p`; on no
      elements it is true. */
  lemma {:induction false} AllForall<T>(p: T -> bool, xs: seq<T>)
    ensures All(p, xs) <==> forall i :: 0 <= i < |xs| ==> p(xs[i])
    ensures xs == [] ==> All(p, xs)
    decreases |xs|
  {
    if xs != [] {
      AllForall(p, xs[1..]);
      if All(p, xs) {
        forall i | 1 <= i < |xs|
          ensures p(xs[i])
        {
          assert xs[i] == xs[1..][i - 1];
        }
      }
      if forall i :: 0 <= i < |xs| ==> p(xs[i]) {
        forall i | 0 <= i < |xs| - 1
          ensures p(xs[1..][i])
        {
          assert xs[1..][i] == xs[i + 1];
        }
      }
    }
  }

  /** `findIndex(p)`: the index of the first element satisfying `p`, or -1. */
  function FindIndex<T>(p: T -> bool, xs: seq<T>): (r: int)
    ensures -1 <= r < |xs|
    ensures 0 <= r ==> p(xs[r])
    decreases |xs|
  {
    if xs == [] then -1
    else if p(xs[0]) then 0
    else
      var k := FindIndex(p, xs[1..]);
      if k < 0 then -1 else k + 1
  }

  /** No element before the one `findIndex(p)` finds satisfies `p`, and
      none at all when it finds none. */
  lemma {:induction false} FindIndexFirst<T>(p: T -> bool, xs: seq<T>)
    ensures forall j :: 0 <= j < |xs| && (FindIndex(p, xs) < 0 || j < FindIndex(p, xs)) ==> !p(xs[j])
    decreases |xs|
  {
    if xs != [] && !p(xs[0]) {
      FindIndexFirst(p, xs[1..]);
      forall j | 1 <= j < |xs| && (FindIndex(p, xs) < 0 || j < FindIndex(p, xs))
        ensures !p(xs[j])
      {
        assert xs[j] == xs[1..][j - 1];
      }
    }
  }

  /** `find(p)`: the first element satisfying `p`; `None` is `null`. */
  function Find<T>(p: T -> bool, xs: seq<T>): (r: Option<T>)
    ensures r.None? <==> FindIndex(p, xs) < 0
    ensures r.Some? ==> r.value == xs[FindIndex(p, xs)]
    decreases |xs|
  {
    if xs == [] then None
    else if p(xs[0]) then Some(xs[0])
    else Find(p, xs[1..])
  }

  /** `some` and `every` decide on the same element: the first one that
      satisfies `p`, respectively fails it. */
  lemma AnyAllDual<T>(p: T -> bool, xs: seq<T>)
    ensures All(p, xs) <==> !Any(x => !p(x), xs)
    ensures Any(p, xs) <==> FindIndex(p, xs) >= 0
    ensures All(p, xs) <==> FindIndex(x => !p(x), xs) < 0
  {
  }

  /** How many elements a counter bound `n` admits out of `len`. */
  function Clamp(n: int, len: nat): (k: nat)
    ensures k <= len
    ensures n <= 0 ==> k == 0
    ensures 0 <= n <= len ==> k == n
    ensures len <= n ==> k == len
  {
    if n < 0 then 0 else if n > len then len else n
  }

  /** Distributing a product over a successor, for the index arithmetic of
      windows, ranges and products. */
  lemma MulSucc(a: int, s: int)
    ensures (a + 1) * s == a * s + s
  {
  }

  /** `take(n)`: the `i`-th element (counting from 1) is yielded while
      `i <= n`. */
  function Take<T>(n: int, xs: seq<T>): (r: seq<T>)
    ensures r == xs[..Clamp(n, |xs|)]
    decreases |xs|
  {
    if n <= 0 || xs == [] then [] else [xs[0]] + Take(n - 1, xs[1..])
  }

  /** `skip(n)`: the `i`-th element (counting from 1) is dropped while
      `i <= n`. */
  function Skip<T>(n: int, xs: seq<T>): (r: seq<T>)
    ensures r == xs[Clamp(n, |xs|)..]
    decreases |xs|
  {
    if n <= 0 || xs == [] then xs else Skip(n - 1, xs[1..])
  }

  /** `partitionAt(n)`: the two halves put back together are the input. */
  function PartitionAt<T>(n: int, xs: seq<T>): (r: (seq<T>, seq<T>))
    ensures r.0 + r.1 == xs
    ensures |r.0| == Clamp(n, |xs|)
  {
    (Take(n, xs), Skip(n, xs))
  }

  /** `partition(p)`. */
  function Partition<T>(p: T -> bool, xs: seq<T>): (r: (seq<T>, seq<T>))
    ensures multiset(r.0) + multiset(r.1) == multiset(xs)
    ensures forall i :: 0 <= i < |r.0| ==> p(r.0[i])
    ensures forall i :: 0 <= i < |r.1| ==> !p(r.1[i])
  {
    FilterSplit(p, xs);
    FilterKeeps(p, xs);
    FilterKeeps(x => !p(x), xs);
    (Filter(p, xs), Filter(x => !p(x), xs))
  }

  /** `takeWhile(f)`: the longest prefix whose elements all satisfy `f`. */
  function TakeWhile<T>(f: T -> bool, xs: seq<T>): (r: seq<T>)
    ensures |r| <= |xs|
    decreases |xs|
  {
    if xs == [] || !f(xs[0]) then [] else [xs[0]] + TakeWhile(f, xs[1..])
  }

  /** `takeWhile(f)` yields a prefix of the input, and stops on an element
      failing `f`. */
  lemma {:induction false} TakeWhilePrefix<T>(f: T -> bool, xs: seq<T>)
    ensures TakeWhile(f, xs) == xs[..|TakeWhile(f, xs)|]
    ensures |TakeWhile(f, xs)| < |xs| ==> !f(xs[|TakeWhile(f, xs)|])
    decreases |xs|
  {
    if xs != [] && f(xs[0]) {
      TakeWhilePrefix(f, xs[1..]);
      assert xs == [xs[0]] + xs[1..];
    }
  }

  /** Every element `takeWhile(f)` yields satisfies `f`: with the stop on
      the first element failing `f`, it is the longest such prefix. */
  lemma {:induction false} TakeWhileAll<T>(f: T -> bool, xs: seq<T>)
    ensures forall i :: 0 <= i < |TakeWhile(f, xs)| ==> f(TakeWhile(f, xs)[i])
    decreases |xs|
  {
    if xs != [] && f(xs[0]) {
      TakeWhileAll(f, xs[1..]);
      forall i | 1 <= i < |TakeWhile(f, xs)|
        ensures f(TakeWhile(f, xs)[i])
      {
        assert TakeWhile(f, xs)[i] == TakeWhile(f, xs[1..])[i - 1];
      }
    }
  }

  /** The first loop of `skipWhile(f)` over what the iterator has left:
      `first` is the last element seen; the loop stops after the first
      element failing `f`. The result is `first` and what the iterator
      then has left. */
  function SkipLoop<T>(f: T -> bool, xs: seq<T>, first: Option<T>): (r: (Option<T>, seq<T>))
    decreases |xs|
  {
    if xs == [] then (first, [])
    else if !f(xs[0]) then (Some(xs[0]), xs[1..])
    else SkipLoop(f, xs[1..], Some(xs[0]))
  }

  /** The first loop stops on the first element failing `f`; when there is
      none it runs out, and `first` is the last element (or what it was). */
  lemma {:induction false} SkipLoopStops<T>(f: T -> bool, xs: seq<T>, first: Option<T>)
    ensures var k := |TakeWhile(f, xs)|;
      && (k < |xs| ==> SkipLoop(f, xs, first) == (Some(xs[k]), xs[k + 1..]))
      && (k == |xs| && xs != [] ==> SkipLoop(f, xs, first) == (Some(xs[|xs| - 1]), []))
      && (xs == [] ==> SkipLoop(f, xs, first) == (first, []))
    decreases |xs|
  {
    if xs != [] && f(xs[0]) {
      SkipLoopStops(f, xs[1..], Some(xs[0]));
      var k' := |TakeWhile(f, xs[1..])|;
      assert |TakeWhile(f, xs)| == k' + 1;
      if k' < |xs| - 1 {
        assert xs[1..][k' + 1..] == xs[k' + 2..];
      }
    }
  }

  /** `skipWhile(f)` on an input whose iterator has no `return` method (an
      array): the first element failing `f`, then everything after it; when
      every element satisfies `f`, the last element alone; on empty input,
      `undefined` alone. */
  function SkipWhile<T>(f: T -> bool, xs: seq<T>): (r: seq<Option<T>>)
    ensures var k := |TakeWhile(f, xs)|;
      && (k < |xs| ==> r == Wrap(xs[k..]))
      && (k == |xs| && xs != [] ==> r == [Some(xs[|xs| - 1])])
      && (xs == [] ==> r == [None])
  {
    var (first, rest) := SkipLoop(f, xs, None);
    SkipLoopStops(f, xs, None);
    var r := [first] + Wrap(rest);
    assert |TakeWhile(f, xs)| < |xs| ==> r == Wrap(xs[|TakeWhile(f, xs)|..]);
    r
  }

  /** `skipWhile(f)` on a generator: leaving the first loop calls `return`
      on the generator, so the second loop yields nothing. */
  function SkipWhileOnGenerator<T>(f: T -> bool, xs: seq<T>): (r: seq<Option<T>>)
    ensures |r| == 1
    ensures var k := |TakeWhile(f, xs)|;
      && (k < |xs| ==> r == [Some(xs[k])])
      && (k == |xs| ==> r == SkipWhile(f, xs))
  {
    SkipLoopStops(f, xs, None);
    [SkipLoop(f, xs, None).0]
  }

  /** What `skipWhile(f)` is evidently meant to yield: everything from the
      first element failing `f` on. */
  function SkipWhileIntended<T>(f: T -> bool, xs: seq<T>): (r: seq<T>)
    ensures TakeWhile(f, xs) + r == xs
    ensures r != [] ==> !f(r[0])
    decreases |xs|
  {
    if xs == [] || !f(xs[0]) then xs else SkipWhileIntended(f, xs[1..])
  }

  /** `skipWhile` as written agrees with the intended one exactly when some
      element fails `f`. */
  lemma SkipWhileAgrees<T>(f: T -> bool, xs: seq<T>)
    ensures !All(f, xs) <==> SkipWhile(f, xs) == Wrap(SkipWhileIntended(f, xs))
  {
    var k := |TakeWhile(f, xs)|;
    assert SkipWhileIntended(f, xs) == xs[k..];
    if All(f, xs) {
      assert k == |xs|;
      assert |SkipWhile(f, xs)| == 1 != |Wrap(SkipWhileIntended(f, xs))|;
    }
  }

  /** Every element satisfying `f`: the last one comes out again (and an
      empty input yields `undefined`), where nothing is meant. */
  lemma SkipWhileAllSatisfy()
    ensures SkipWhile((x: int) => x < 10, [1, 2, 3]) == [Some(3)]
    ensures SkipWhileIntended((x: int) => x < 10, [1, 2, 3]) == []
    ensures SkipWhile((x: int) => x < 10, []) == [None]
  {
    assert TakeWhile((x: int) => x < 10, [1, 2, 3]) == [1, 2, 3];
  }

  /** On a generator only the first failing element comes out. */
  lemma SkipWhileGeneratorCut()
    ensures SkipWhileOnGenerator((x: int) => x < 3, [1, 2, 3, 4, 5]) == [Some(3)]
    ensures SkipWhile((x: int) => x < 3, [1, 2, 3, 4, 5]) == [Some(3), Some(4), Some(5)]
  {
    var xs := [1, 2, 3, 4, 5];
    assert TakeWhile((x: int) => x < 3, xs) == [1, 2] by {
      assert xs[1..] == [2, 3, 4, 5] && xs[1..][1..] == [3, 4, 5];
    }
    assert xs[2..] == [3, 4, 5];
  }

  /** `partitionWhile(f)` on an array, as written. */
  function PartitionWhile<T>(f: T -> bool, xs: seq<T>): (r: (seq<T>, seq<Option<T>>))
    ensures !All(f, xs) ==> Wrap(r.0) + r.1 == Wrap(xs)
    ensures All(f, xs) && xs != [] ==> r.0 == xs && r.1 == [Some(xs[|xs| - 1])]
  {
    var k := |TakeWhile(f, xs)|;
    AllForall(f, xs);
    TakeWhileAll(f, xs);
    TakeWhilePrefix(f, xs);
    if k < |xs| then
      WrapAppend(xs[..k], xs[k..]);
      assert xs == xs[..k] + xs[k..];
      (TakeWhile(f, xs), SkipWhile(f, xs))
    else
      (TakeWhile(f, xs), SkipWhile(f, xs))
  }

  /** `partitionWhile(f)` as evidently meant: the halves put back together
      are the input. */
  function PartitionWhileIntended<T>(f: T -> bool, xs: seq<T>): (r: (seq<T>, seq<T>))
    ensures r.0 + r.1 == xs
    ensures forall i :: 0 <= i < |r.0| ==> f(r.0[i])
    ensures r.1 != [] ==> !f(r.1[0])
  {
    TakeWhileAll(f, xs);
    (TakeWhile(f, xs), SkipWhileIntended(f, xs))
  }
}
