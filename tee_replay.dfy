/** What the tee promises its two consumers, whatever order they read in. */
module TeeReplay {
  import opened Wrappers
  import opened Cursors
  import opened Common

  /** Branch i of `t` has handed out `out`, the first `taken[i]` elements
      of `all`, and has stopped only once it has handed out all of them. */
  ghost predicate Consumed<T>(t: Tee<T>, i: nat, out: seq<T>)
    reads t
    requires i < 2 && t.Shaped()
  {
    out == t.all[..t.taken[i]] && (t.finished[i] ==> t.taken[i] == |t.all|)
  }

  /** Tees a single-pass iterator over `xs`, then reads branch 0 when the
      schedule says `true` and branch 1 when it says `false`, and finally
      drains both branches. Whatever the schedule, each branch yields all
      of `xs` in order, and the source is pulled exactly once per element. */
  method TeeInterleaved<T>(xs: seq<T>, schedule: seq<bool>) returns (out0: seq<T>, out1: seq<T>, pulls: nat)
    ensures out0 == xs && out1 == xs
    ensures pulls == |xs|
  {
    var c := new Cursor(xs, false);
    var a, b := TeeOf(Iter(c));
    var t := a.tee;
    out0, out1 := ReadInSchedule(t, schedule);
    pulls := c.pos;
    PulledOnce(t, c, xs);
  }

  /** Reads both branches of a fresh tee as the schedule says, then each
      to its end. */
  method ReadInSchedule<T>(t: Tee<T>, schedule: seq<bool>) returns (out0: seq<T>, out1: seq<T>)
    requires t.Valid() && t.taken == [0, 0] && t.finished == [false, false]
    modifies t.Repr()
    ensures t.Valid() && out0 == t.all && out1 == t.all && t.taken[0] == |t.all|
  {
    out0, out1 := ReadScheduled(t, schedule);
    out0 := DrainBranch(t, 0, out0, out1);
    out1 := DrainBranch(t, 1, out1, out0);
  }

  /** Reads one element from branch 0 or branch 1 of `t`, as the schedule
      says, for each step of the schedule. */
  method ReadScheduled<T>(t: Tee<T>, schedule: seq<bool>) returns (out0: seq<T>, out1: seq<T>)
    requires t.Valid() && t.taken == [0, 0] && t.finished == [false, false]
    modifies t.Repr()
    ensures t.Valid() && Consumed(t, 0, out0) && Consumed(t, 1, out1)
  {
    out0, out1 := [], [];
    for k := 0 to |schedule|
      invariant t.Valid() && Consumed(t, 0, out0) && Consumed(t, 1, out1)
    {
      var more;
      if schedule[k] {
        out0, more := ReadBranch(t, 0, out0);
      } else {
        out1, more := ReadBranch(t, 1, out1);
      }
    }
  }

  /** Once branch 0 has taken everything, the source cursor has been moved
      past every element, and no further. */
  lemma PulledOnce<T>(t: Tee<T>, c: Cursor<T>, xs: seq<T>)
    requires t.Valid() && t.taken[0] == |t.all| && t.up == Iter(c) && t.all == xs
    requires !c.closable && c.elems == xs
    ensures c.pos == |xs|
  {
    t.ValidUp();
    assert c.Remaining() == xs[c.pos..] == xs[t.pulled..];
  }

  /** One `next()` on branch i of `t`; the other branch is untouched. */
  method ReadBranch<T>(t: Tee<T>, i: nat, acc: seq<T>) returns (out: seq<T>, more: bool)
    requires t.Valid() && i < 2 && Consumed(t, i, acc)
    modifies t.Repr()
    ensures t.Valid() && Consumed(t, i, out)
    ensures t.taken[1 - i] == old(t.taken[1 - i]) && t.finished[1 - i] == old(t.finished[1 - i])
    ensures more ==> t.taken[i] == old(t.taken[i]) + 1
    ensures !more ==> t.taken[i] == |t.all| && out == acc
  {
    var r := t.Next(i);
    more := r.Some?;
    out := acc;
    if more {
      out := acc + [r.value];
      assert out == t.all[..t.taken[i]];
    }
  }

  /** Reads branch i of `t` to its end; what the other branch has handed
      out stays consumed. */
  method DrainBranch<T>(t: Tee<T>, i: nat, acc: seq<T>, ghost other: seq<T>) returns (out: seq<T>)
    requires t.Valid() && i < 2 && Consumed(t, i, acc) && Consumed(t, 1 - i, other)
    modifies t.Repr()
    ensures t.Valid() && Consumed(t, i, out) && Consumed(t, 1 - i, other)
    ensures out == t.all && t.taken[i] == |t.all|
  {
    out := acc;
    while true
      invariant t.Valid() && Consumed(t, i, out)
      invariant t.taken[1 - i] == old(t.taken[1 - i]) && t.finished[1 - i] == old(t.finished[1 - i])
      decreases |t.all| - t.taken[i]
    {
      var more;
      out, more := ReadBranch(t, i, out);
      if !more {
        break;
      }
    }
  }
}
