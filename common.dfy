/** The cursor helpers and the fork engine of common.mjs: `pipe`,
    `iterator`, `isIterator`, `tee` and `teeN`. */
module Common {
  import opened Wrappers
  import opened Cursors

  /** Left-to-right threading of `x` through `fs`: `fk(...f2(f1(x)))`. */
  function Thread<X>(x: X, fs: seq<X -> X>): X
    decreases |fs|
  {
    if fs == [] then x else Thread(fs[0](x), fs[1..])
  }

  /** Appending a stage applies it last. */
  lemma {:induction false} ThreadSnoc<X>(x: X, fs: seq<X -> X>, g: X -> X)
    ensures Thread(x, fs + [g]) == g(Thread(x, fs))
    decreases |fs|
  {
    if fs == [] {
      assert [g][1..] == [];
    } else {
      assert (fs + [g])[1..] == fs[1..] + [g];
      ThreadSnoc(fs[0](x), fs[1..], g);
    }
  }

  /** Threading through two lists in turn is threading through their concatenation. */
  lemma {:induction false} ThreadAppend<X>(x: X, fs: seq<X -> X>, gs: seq<X -> X>)
    ensures Thread(x, fs + gs) == Thread(Thread(x, fs), gs)
    decreases |fs|
  {
    if fs == [] {
      assert fs + gs == gs;
    } else {
      assert (fs + gs)[1..] == fs[1..] + gs;
      ThreadAppend(fs[0](x), fs[1..], gs);
    }
  }

  /** `pipe(x, ...fs)`: `res` is updated by each function in turn. */
  method Pipe<X>(x: X, fs: seq<X -> X>) returns (res: X)
    ensures res == Thread(x, fs)
    ensures fs == [] ==> res == x
  {
    res := x;
    for k := 0 to |fs|
      invariant Thread(res, fs[k..]) == Thread(x, fs)
    {
      assert fs[k..][1..] == fs[k + 1..];
      res := fs[k](res);
    }
  }

  /** A value a `for...of` loop can walk. */
  datatype Iterable<T> =
    | Restartable(elems: seq<T>)       // an array or string: each walk starts afresh
    | Iter(cursor: Cursor<T>)          // an iterator: `Symbol.iterator` returns the object itself
    | Branch(tee: Tee<T>, side: nat)   // one of the two generators `tee` returns

  /** `isIterator(xs)`: asking `xs` for its iterator gives `xs` itself. */
  predicate IsIterator<T>(xs: Iterable<T>)
  {
    !xs.Restartable?
  }

  /** The objects whose fields decide what `xs` yields. */
  ghost function ReprOf<T>(xs: Iterable<T>): set<object>
  {
    match xs
    case Restartable(_) => {}
    case Iter(c) => {c}
    case Branch(t, _) => t.Repr()
  }

  ghost predicate Wf<T>(xs: Iterable<T>)
    reads ReprOf(xs)
    decreases ReprOf(xs), 2
  {
    match xs
    case Restartable(_) => true
    case Iter(c) => c.Valid()
    case Branch(t, s) => s < 2 && t.Shaped() && t.Valid()
  }

  /** What walking `xs` from now on yields. */
  ghost function Elements<T>(xs: Iterable<T>): seq<T>
    reads ReprOf(xs)
    requires Wf(xs)
    decreases ReprOf(xs), 3
  {
    match xs
    case Restartable(s) => s
    case Iter(c) => c.Remaining()
    case Branch(t, s) => t.Remaining(s)
  }

  /** What the branches off the upstream path of `xs` yield: for `xs` a
      branch of a tee, the other branch of that tee, then the same for that
      tee's source, down to the first iterator. */
  ghost function OffPathOf<T>(xs: Iterable<T>): seq<seq<T>>
    reads ReprOf(xs)
    requires Wf(xs)
    decreases ReprOf(xs)
  {
    match xs
    case Branch(t, s) =>
      t.ValidUp();
      [t.Remaining(1 - s)] + OffPathOf(t.up)
    case _ => []
  }

  /** How the two buffers of a tee relate to what has been pulled from its
      source: the first `pulled` elements of `all` have been pulled, branch i
      has taken `taken[i]` of them, at least one branch is level with the
      source, and each buffer holds what its branch has yet to take. */
  ghost predicate Buffered<T>(all: seq<T>, pulled: nat, taken: seq<nat>, buffers: seq<seq<T>>)
  {
    && |buffers| == 2 && |taken| == 2
    && pulled <= |all| && taken[0] <= pulled && taken[1] <= pulled
    && (taken[0] == pulled || taken[1] == pulled)
    && buffers[0] == all[taken[0]..pulled]
    && buffers[1] == all[taken[1]..pulled]
  }

  /** Taking the front of a non-empty buffer keeps the buffers consistent. */
  lemma BufferedShift<T>(all: seq<T>, pulled: nat, taken: seq<nat>, buffers: seq<seq<T>>, i: nat)
    requires Buffered(all, pulled, taken, buffers) && i < 2 && buffers[i] != []
    ensures buffers[i][0] == all[taken[i]]
    ensures Buffered(all, pulled, taken[i := taken[i] + 1], buffers[i := buffers[i][1..]])
  {
  }

  /** Pulling the next element for a branch whose buffer is empty, and
      pushing it onto the other buffer, keeps the buffers consistent. */
  lemma BufferedPush<T>(all: seq<T>, pulled: nat, taken: seq<nat>, buffers: seq<seq<T>>, i: nat)
    requires Buffered(all, pulled, taken, buffers) && i < 2 && buffers[i] == [] && pulled < |all|
    ensures taken[i] == pulled
    ensures Buffered(all, pulled + 1, taken[i := taken[i] + 1], buffers[1 - i := buffers[1 - i] + [all[pulled]]])
  {
    assert all[taken[1 - i]..pulled + 1] == all[taken[1 - i]..pulled] + [all[pulled]];
  }

  /** The state shared by the two generators `tee(it)` returns. */
  class Tee<T> {
    /** `source`, the iterator of `it` */
    const up: Iterable<T>
    /** the objects of the upstream */
    ghost const below: set<object>
    /** `buffers`: elements pulled from the source, not yet taken by branch i */
    var buffers: seq<seq<T>>
    /** whether the generator of branch i has finished */
    var finished: seq<bool>
    /** what the source had left when `tee` was called */
    ghost const all: seq<T>
    /** how many of those have been pulled from the source */
    ghost var pulled: nat
    /** how many of those branch i has taken */
    ghost var taken: seq<nat>

    ghost function Repr(): set<object>
    {
      {this} + below
    }

    ghost predicate Valid()
      reads this, Repr()
      decreases Repr(), 1
    {
      && below == ReprOf(up) && this !in below
      && (match up
          case Restartable(_) => false
          case Iter(c) => c.Valid()
          case Branch(t, s) => s < 2 && t.Shaped() && t.Valid())
      && Shaped()
      && Buffered(all, pulled, taken, buffers)
      && Elements(up) == all[pulled..]
    }

    /** The source of a valid tee is itself valid and lies below it. */
    lemma ValidUp()
      requires Valid()
      ensures IsIterator(up) && Wf(up) && ReprOf(up) == below && this !in below
      ensures Elements(up) == all[pulled..] && taken[0] <= pulled && taken[1] <= pulled
    {
    }

    /** At most one buffer holds anything; it holds, in source order, the
        elements the other branch has taken beyond this one. */
    lemma Lag()
      requires Valid()
      ensures buffers[0] == [] || buffers[1] == []
      ensures taken[0] <= taken[1] ==> buffers[1] == [] && buffers[0] == all[taken[0]..taken[1]]
      ensures taken[1] <= taken[0] ==> buffers[0] == [] && buffers[1] == all[taken[1]..taken[0]]
    {
    }

    /** The per-branch state has one entry per branch, within `all`. */
    ghost predicate Shaped()
      reads this
    {
      |taken| == 2 && |finished| == 2 && taken[0] <= |all| && taken[1] <= |all|
    }

    /** What branch i yields from now on. */
    ghost function Remaining(i: nat): seq<T>
      reads this
      requires i < 2 && Shaped()
    {
      if finished[i] then [] else all[taken[i]..]
    }

    /** `tee(it)` for an iterator `it`. */
    constructor (up: Iterable<T>)
      requires IsIterator(up) && Wf(up)
      ensures Valid() && this.up == up && below == ReprOf(up)
      ensures all == Elements(up) && pulled == 0 && taken == [0, 0]
      ensures buffers == [[], []] && finished == [false, false]
      ensures Remaining(0) == all && Remaining(1) == all
    {
      this.up := up;
      below := ReprOf(up);
      all := Elements(up);
      buffers := [[], []];
      finished := [false, false];
      pulled := 0;
      taken := [0, 0];
    }

    /** The `next(i)` closure: the own buffer first, front first; the source
        only when that buffer is empty, and then the pulled value is pushed
        onto the other buffer. `None` is `DONE`. */
    method Step(i: nat) returns (r: Option<T>)
      requires Valid() && i < 2
      modifies Repr()
      decreases Repr(), 1
      ensures Valid() && finished == old(finished)
      ensures taken[1 - i] == old(taken[1 - i])
      ensures old(taken[i]) < |all| ==> r == Some(all[old(taken[i])]) && taken[i] == old(taken[i]) + 1
      ensures old(taken[i]) == |all| ==> r == None && taken[i] == old(taken[i])
      ensures r.Some? ==> taken == old(taken)[i := old(taken[i]) + 1]
      ensures r.None? ==> taken == old(taken)
      ensures old(buffers[i]) != [] ==>
        pulled == old(pulled) && buffers == old(buffers)[i := old(buffers[i])[1..]]
      ensures old(buffers[i]) == [] && r.Some? ==>
        pulled == old(pulled) + 1 && buffers == old(buffers)[1 - i := old(buffers[1 - i]) + [r.value]]
      ensures r.None? ==> pulled == old(pulled) && buffers == old(buffers)
      ensures OffPathOf(up) == old(OffPathOf(up))
    {
      if buffers[i] != [] {
        r := Shift(i);
      } else {
        r := PullShared(i);
      }
    }

    /** `buffers[i].shift()` */
    method Shift(i: nat) returns (r: Option<T>)
      requires Valid() && i < 2 && buffers[i] != []
      modifies this
      ensures Valid() && finished == old(finished) && pulled == old(pulled)
      ensures taken == old(taken)[i := old(taken[i]) + 1]
      ensures r == Some(all[old(taken[i])])
      ensures buffers == old(buffers)[i := old(buffers[i])[1..]]
      ensures OffPathOf(up) == old(OffPathOf(up))
    {
      BufferedShift(all, pulled, taken, buffers, i);
      r := Some(buffers[i][0]);
      buffers := buffers[i := buffers[i][1..]];
      taken := taken[i := taken[i] + 1];
    }

    /** `source.next()`, and on a value `buffers[1 - i].push(x.value)` */
    method PullShared(i: nat) returns (r: Option<T>)
      requires Valid() && i < 2 && buffers[i] == []
      modifies Repr()
      decreases Repr(), 0
      ensures Valid() && finished == old(finished)
      ensures old(pulled) < |all| ==>
        && r == Some(all[old(pulled)]) && pulled == old(pulled) + 1
        && taken == old(taken)[i := old(taken[i]) + 1]
        && buffers == old(buffers)[1 - i := old(buffers[1 - i]) + [r.value]]
      ensures old(pulled) == |all| ==> r == None && pulled == old(pulled) && taken == old(taken) && buffers == old(buffers)
      ensures OffPathOf(up) == old(OffPathOf(up))
    {
      ghost var rest := Elements(up);
      r := Pull(up);
      if r.None? {
        return;
      }
      assert rest == all[pulled..] && r.value == all[pulled];
      Record(i, r.value);
    }

    /** `buffers[1 - i].push(x)`, once the source has moved past `x` */
    method Record(i: nat, x: T)
      requires below == ReprOf(up) && this !in below && IsIterator(up) && Wf(up)
      requires |finished| == 2 && Buffered(all, pulled, taken, buffers)
      requires i < 2 && buffers[i] == [] && pulled < |all| && all[pulled] == x
      requires Elements(up) == all[pulled + 1..]
      modifies this
      ensures Valid() && finished == old(finished)
      ensures pulled == old(pulled) + 1 && taken == old(taken)[i := old(taken[i]) + 1]
      ensures buffers == old(buffers)[1 - i := old(buffers[1 - i]) + [x]]
    {
      BufferedPush(all, pulled, taken, buffers, i);
      buffers := buffers[1 - i := buffers[1 - i] + [x]];
      pulled := pulled + 1;
      taken := taken[i := taken[i] + 1];
    }

    /** One `next()` of the generator of branch i: it stops for good the
        first time `next(i)` reports `DONE`. */
    method Next(i: nat) returns (r: Option<T>)
      requires Valid() && i < 2
      modifies Repr()
      decreases Repr(), 2
      ensures Valid()
      ensures r == if old(Remaining(i)) == [] then None else Some(old(Remaining(i))[0])
      ensures Remaining(i) == if old(Remaining(i)) == [] then [] else old(Remaining(i))[1..]
      ensures Remaining(1 - i) == old(Remaining(1 - i))
      ensures finished[1 - i] == old(finished[1 - i]) && taken[1 - i] == old(taken[1 - i])
      ensures r.None? && !old(finished[i]) ==> taken[i] == |all|
      ensures r.None? ==> finished[i] && taken == old(taken)
      ensures r.Some? ==> !finished[i] && taken == old(taken)[i := old(taken[i]) + 1]
      ensures OffPathOf(up) == old(OffPathOf(up))
    {
      if finished[i] {
        return None;
      }
      r := Step(i);
      if r.None? {
        finished := finished[i := true];
      }
    }

    /** `return()` on the generator of branch i, as a `for...of` loop left
        early calls it: the branch is finished, the shared state stays. */
    method Return(i: nat)
      requires Valid() && i < 2
      modifies this
      ensures Valid() && finished == old(finished)[i := true]
      ensures buffers == old(buffers) && taken == old(taken) && pulled == old(pulled)
      ensures Remaining(i) == [] && Remaining(1 - i) == old(Remaining(1 - i))
      ensures OffPathOf(up) == old(OffPathOf(up))
    {
      finished := finished[i := true];
    }
  }

  lemma SliceSnoc<T>(s: seq<T>, lo: nat, hi: nat)
    requires lo <= hi < |s|
    ensures s[lo..hi + 1] == s[lo..hi] + [s[hi]]
    ensures s[hi..][1..] == s[hi + 1..]
  {
  }

  /** What an iterable yields depends only on its own objects. */
  twostate lemma Framed<T>(xs: Iterable<T>)
    requires old(Wf(xs)) && unchanged(ReprOf(xs))
    ensures Wf(xs) && Elements(xs) == old(Elements(xs))
  {
    match xs
    case Restartable(_) =>
    case Iter(_) =>
    case Branch(_, _) =>
  }

  /** One `next()` on an iterator. */
  method Pull<T>(xs: Iterable<T>) returns (r: Option<T>)
    requires IsIterator(xs) && Wf(xs)
    modifies ReprOf(xs)
    decreases ReprOf(xs), 3
    ensures Wf(xs)
    ensures r == if old(Elements(xs)) == [] then None else Some(old(Elements(xs))[0])
    ensures Elements(xs) == if old(Elements(xs)) == [] then [] else old(Elements(xs))[1..]
    ensures OffPathOf(xs) == old(OffPathOf(xs))
  {
    match xs
    case Iter(c) =>
      r := c.Next();
    case Branch(t, s) =>
      r := t.Next(s);
  }

  /** Whether `return()` finishes `xs`: a generator (a tee branch, a
      closable cursor) has one, an array iterator has none. */
  predicate Closable<T>(xs: Iterable<T>)
  {
    match xs
    case Restartable(_) => false
    case Iter(c) => c.closable
    case Branch(_, _) => true
  }

  /** The `return()` a `for...of` loop left early calls on its iterator. */
  method Close<T>(xs: Iterable<T>)
    requires IsIterator(xs) && Wf(xs)
    modifies ReprOf(xs)
    ensures Wf(xs)
    ensures Elements(xs) == if Closable(xs) then [] else old(Elements(xs))
    ensures OffPathOf(xs) == old(OffPathOf(xs))
  {
    match xs
    case Iter(c) =>
      c.Return();
    case Branch(t, s) =>
      t.Return(s);
  }

  /** `iterator(xs)`: an array gives a fresh array iterator, an iterator
      gives itself. */
  method GetIterator<T>(xs: Iterable<T>) returns (it: Iterable<T>)
    requires Wf(xs)
    ensures Wf(xs) && IsIterator(it) && Wf(it) && Elements(it) == Elements(xs)
    ensures it == xs <==> IsIterator(xs)
    ensures !IsIterator(xs) ==> it.Iter? && fresh(it.cursor) && !it.cursor.closable
  {
    if xs.Restartable? {
      var c := new Cursor(xs.elems, false);
      it := Iter(c);
    } else {
      it := xs;
    }
  }

  /** `tee(it)`: a non-iterator is returned twice, unchanged and without
      buffers; an iterator is shared by two fresh branches that each yield
      everything it has left. */
  method TeeOf<T>(it: Iterable<T>) returns (a: Iterable<T>, b: Iterable<T>)
    requires Wf(it)
    ensures Wf(it) && Wf(a) && Wf(b)
    ensures Elements(a) == Elements(it) && Elements(b) == Elements(it)
    ensures !IsIterator(it) ==> a == it && b == it
    ensures IsIterator(it) ==>
      && a.Branch? && a == Branch(a.tee, 0) && b == Branch(a.tee, 1)
      && fresh(a.tee) && a.tee.up == it && a.tee.Repr() == ReprOf(it) + {a.tee}
      && a.tee.buffers == [[], []] && OffPathOf(a) == [Elements(it)] + OffPathOf(it)
      && a.tee.all == Elements(it) && a.tee.taken == [0, 0] && a.tee.finished == [false, false]
  {
    if !IsIterator(it) {
      return it, it;
    }
    var t := new Tee(it);
    a, b := Branch(t, 0), Branch(t, 1);
  }

  /** Walks `xs` to its end, as `[...xs]` does. */
  method Drain<T>(xs: Iterable<T>) returns (out: seq<T>)
    requires Wf(xs)
    modifies ReprOf(xs)
    ensures Wf(xs) && out == old(Elements(xs))
    ensures IsIterator(xs) ==> Elements(xs) == []
    ensures !IsIterator(xs) ==> Elements(xs) == old(Elements(xs))
    ensures OffPathOf(xs) == old(OffPathOf(xs))
  {
    if !IsIterator(xs) {
      return xs.elems;
    }
    out := [];
    while true
      invariant Wf(xs)
      invariant out + Elements(xs) == old(Elements(xs))
      invariant OffPathOf(xs) == old(OffPathOf(xs))
      decreases |Elements(xs)|
    {
      ghost var rest := Elements(xs);
      var r := Pull(xs);
      if r.None? {
        break;
      }
      MoveHead(out, rest);
      out := out + [r.value];
    }
  }

  /** Moving the head of what is left onto what is done. */
  lemma MoveHead<T>(done: seq<T>, rest: seq<T>)
    requires rest != []
    ensures (done + [rest[0]]) + rest[1..] == done + rest
  {
    assert rest == [rest[0]] + rest[1..];
  }

  /** One tee of the `teeN` chain: the iterables already handed out, all
      replaying `e` over objects in `objs`, keep doing so. */
  method TeeKeeping<T>(orig: Iterable<T>, first: Iterable<T>, kept: seq<Iterable<T>>, ghost e: seq<T>, ghost objs: set<object>)
    returns (next: Iterable<T>, copy: Iterable<T>)
    requires Wf(orig) && Elements(orig) == e && ReprOf(orig) <= objs
    requires Wf(first) && Elements(first) == e && ReprOf(first) <= objs
    requires forall k :: 0 <= k < |kept| ==> Wf(kept[k]) && Elements(kept[k]) == e && ReprOf(kept[k]) <= objs
    ensures Wf(next) && Elements(next) == e && Wf(copy) && Elements(copy) == e
    ensures Wf(first) && Elements(first) == e
    ensures forall k :: 0 <= k < |kept| ==> Wf(kept[k]) && Elements(kept[k]) == e
    ensures ReprOf(copy) == ReprOf(next)
    ensures !IsIterator(orig) ==> next == orig && copy == orig
    ensures IsIterator(orig) ==>
      && next.Branch? && next == Branch(next.tee, 0) && copy == Branch(next.tee, 1) && fresh(next.tee)
      && next.tee.up == orig && next.tee.below == ReprOf(orig) && next.tee !in next.tee.below
  {
    label before:
    next, copy := TeeOf(orig);
    Framed@before(first);
    forall k | 0 <= k < |kept|
      ensures Wf(kept[k]) && Elements(kept[k]) == e
    {
      Framed@before(kept[k]);
    }
  }

  /** The shape of the `teeN` chain over an iterator `it`: the `k`-th tee
      reads the first branch of the tee before it (the first tee reads
      `it`), each copy handed out is the second branch of its tee, and
      `last`, which feeds the next tee, is the first branch of the newest
      tee (`it` itself before any tee). */
  ghost predicate Linked<T>(it: Iterable<T>, copies: seq<Iterable<T>>, last: Iterable<T>)
  {
    && (forall k :: 0 <= k < |copies| ==>
          && copies[k].Branch? && copies[k].side == 1
          && copies[k].tee.below == ReprOf(copies[k].tee.up) && copies[k].tee !in copies[k].tee.below)
    && (forall j, k :: 0 <= j && k == j + 1 && k < |copies| ==> copies[k].tee.up == Branch(copies[j].tee, 0))
    && (copies == [] ==> last == it)
    && (copies != [] ==> copies[0].tee.up == it && last == Branch(copies[|copies| - 1].tee, 0))
  }

  /** One more tee on the end of the chain keeps it linked. */
  lemma LinkedSnoc<T>(it: Iterable<T>, copies: seq<Iterable<T>>, last: Iterable<T>, next: Iterable<T>, copy: Iterable<T>)
    requires Linked(it, copies, last)
    requires next.Branch? && next == Branch(next.tee, 0) && copy == Branch(next.tee, 1)
    requires next.tee.up == last && next.tee.below == ReprOf(last) && next.tee !in next.tee.below
    ensures Linked(it, copies + [copy], next)
  {
    var c := copies + [copy];
    assert c[|copies|] == copy;
    assert forall k :: 0 <= k < |copies| ==> c[k] == copies[k];
  }

  /** Each copy of the chain reads the objects of the copies before it, and
      `last` reads everything the chain reads. */
  lemma {:induction false} LinkedRepr<T>(it: Iterable<T>, copies: seq<Iterable<T>>, last: Iterable<T>)
    requires Linked(it, copies, last)
    ensures ReprOf(it) <= ReprOf(last)
    ensures forall k :: 0 <= k < |copies| ==> ReprOf(copies[k]) <= ReprOf(last)
    ensures forall j, k :: 0 <= j < k < |copies| ==> ReprOf(copies[j]) <= copies[k].tee.below
    decreases |copies|
  {
    if copies != [] {
      var m := |copies| - 1;
      var prefix := copies[..m];
      var below := copies[m].tee.up;
      assert Linked(it, prefix, below);
      LinkedRepr(it, prefix, below);
      assert ReprOf(copies[m]) == ReprOf(last) == {copies[m].tee} + ReprOf(below);
      forall j, k | 0 <= j < k < |copies|
        ensures ReprOf(copies[j]) <= copies[k].tee.below
      {
        if k < m {
          assert prefix[j] == copies[j] && prefix[k] == copies[k];
        } else {
          assert j < m && prefix[j] == copies[j];
        }
      }
    }
  }

  /** The copies of a linked chain from the `from`-th on, as far as their
      tees' own fields decide: each tee is in shape and its second branch
      still yields `e`, and each tee still owes what the first branch of
      the tee before it has left. Walking an earlier copy leaves it true. */
  ghost predicate Settled<T>(copies: seq<Iterable<T>>, from: nat, e: seq<T>)
    reads set k | from <= k < |copies| && copies[k].Branch? :: copies[k].tee
  {
    && (forall k :: from <= k < |copies| ==>
          && copies[k].Branch? && copies[k].tee.Shaped() && copies[k].tee.Remaining(1) == e
          && var u := copies[k].tee; Buffered(u.all, u.pulled, u.taken, u.buffers))
    && (forall i, k :: from <= i && k == i + 1 && k < |copies| ==>
          copies[i].tee.Remaining(0) == copies[k].tee.all[copies[k].tee.pulled..])
  }

  /** Valid copies from the `m`-th on are settled, and the `m`-th tee owes
      what the tee before it has left on its first branch. */
  lemma SettledOf<T>(it: Iterable<T>, copies: seq<Iterable<T>>, last: Iterable<T>, m: nat, e: seq<T>)
    requires Linked(it, copies, last) && 0 < m
    requires forall k :: m <= k < |copies| ==> Wf(copies[k]) && Elements(copies[k]) == e
    ensures Settled(copies, m, e)
    ensures m < |copies| ==>
      && copies[m - 1].tee.Shaped() && copies[m].tee.Shaped()
      && copies[m - 1].tee.Remaining(0) == copies[m].tee.all[copies[m].tee.pulled..]
  {
    forall k | m <= k < |copies|
      ensures copies[k].tee.Shaped() && copies[k].tee.Remaining(1) == e
      ensures var u := copies[k].tee; Buffered(u.all, u.pulled, u.taken, u.buffers)
    {
      assert Wf(copies[k]) && copies[k] == Branch(copies[k].tee, 1) && copies[k].tee.Valid();
    }
    forall i, k | m <= i && k == i + 1 && k < |copies|
      ensures copies[i].tee.Shaped() && copies[k].tee.Shaped() && copies[k].tee.pulled <= |copies[k].tee.all|
      ensures copies[i].tee.Remaining(0) == copies[k].tee.all[copies[k].tee.pulled..]
    {
      var t, u := copies[i].tee, copies[k].tee;
      assert Wf(copies[k]) && copies[k] == Branch(u, 1) && u.up == Branch(t, 0);
      assert u.Valid() && Elements(u.up) == t.Remaining(0);
    }
    if m < |copies| {
      var t, u := copies[m - 1].tee, copies[m].tee;
      assert Wf(copies[m]) && copies[m] == Branch(u, 1) && u.up == Branch(t, 0);
      assert u.Valid() && Elements(u.up) == t.Remaining(0);
    }
  }

  /** Settled copies behind a valid tee are valid again and still yield
      `e`, and so is `last` when the newest tee's first branch has `e` left. */
  lemma {:induction false} SettledValid<T>(it: Iterable<T>, copies: seq<Iterable<T>>, last: Iterable<T>, m: nat, e: seq<T>)
    requires Linked(it, copies, last) && 0 < m <= |copies|
    requires copies[m - 1].tee.Shaped() && copies[m - 1].tee.Valid()
    requires Settled(copies, m, e)
    requires m < |copies| ==>
      && copies[m].tee.Shaped()
      && copies[m - 1].tee.Remaining(0) == copies[m].tee.all[copies[m].tee.pulled..]
    requires copies[|copies| - 1].tee.Shaped() && copies[|copies| - 1].tee.Remaining(0) == e
    ensures forall k :: m <= k < |copies| ==> Wf(copies[k]) && Elements(copies[k]) == e
    ensures Wf(last) && Elements(last) == e
    decreases |copies| - m
  {
    if m < |copies| {
      var t, u := copies[m - 1].tee, copies[m].tee;
      assert copies[m] == Branch(u, 1) && u.up == Branch(t, 0);
      assert u.Valid();
      if m + 1 < |copies| {
        assert copies[m + 1].tee.Shaped();
      }
      SettledValid(it, copies, last, m + 1, e);
    }
  }

  /** `teeN(it, n)`: `n - 1` chained tees; the first iterable of each pair
      feeds the next tee, the second is kept. */
  method TeeN<T>(it: Iterable<T>, n: int) returns (res: seq<Iterable<T>>)
    requires Wf(it)
    ensures Wf(it)
    ensures |res| == if n < 1 then 1 else n
    ensures forall k :: 0 <= k < |res| ==> Wf(res[k]) && Elements(res[k]) == Elements(it)
    ensures !IsIterator(it) ==> forall k :: 0 <= k < |res| ==> res[k] == it
    ensures n <= 1 ==> res == [it]
    ensures IsIterator(it) ==> Linked(it, res[..|res| - 1], res[|res| - 1])
    ensures fresh(ReprOf(res[|res| - 1]) - ReprOf(it))
  {
    ghost var e := Elements(it);
    res := [];
    var orig := it;
    ghost var objs := ReprOf(it);
    var i := 0;
    while i < n - 1
      invariant 0 <= i && (n >= 1 ==> i <= n - 1) && (n < 1 ==> i == 0)
      invariant |res| == i
      invariant i == 0 ==> orig == it
      invariant Wf(it) && Elements(it) == e
      invariant Wf(orig) && Elements(orig) == e
      invariant forall k :: 0 <= k < i ==> Wf(res[k]) && Elements(res[k]) == e
      invariant !IsIterator(it) ==> orig == it && forall k :: 0 <= k < i ==> res[k] == it
      invariant IsIterator(it) ==> IsIterator(orig)
      invariant ReprOf(it) <= objs && ReprOf(orig) <= objs && forall k :: 0 <= k < i ==> ReprOf(res[k]) <= objs
      invariant IsIterator(it) ==> Linked(it, res, orig)
      invariant fresh(ReprOf(orig) - ReprOf(it))
    {
      var copy, next;
      next, copy := TeeKeeping(orig, it, res, e, objs);
      if IsIterator(it) {
        LinkedSnoc(it, res, orig, next, copy);
      }
      orig, res := next, res + [copy];
      objs := objs + ReprOf(orig);
      i := i + 1;
    }
    res := res + [orig];
  }

}
