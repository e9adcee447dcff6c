/** The behaviours the test suite of iter.ts checks on `some` and `every`
    over an array iterator, derived from the contracts of the loops. */
module Scenarios {
  import opened Wrappers
  import opened Cursors
  import opened Common
  import opened Operators
  import opened Generators

  /** `some(x => x === 2)` over the iterator of `[1, 2, 3]` stops at 2: the
      next `next()` yields 3. */
  method SomeStopsAtMatch() returns (found: bool, after: Option<int>)
    ensures found && after == Some(3)
  {
    var c := new Cursor([1, 2, 3], false);
    var xit := Iter(c);
    ghost var e := [1, 2, 3];
    FindIndexFirst(x => x == 2, e);
    assert FindIndex(x => x == 2, e) == 1 by {
      assert e[1] == 2 && e[0] != 2;
    }
    found := SomeOf(x => x == 2, xit);
    assert e[2..] == [3];
    after := Pull(xit);
  }

  /** `every(x => x < 2)` over the iterator of `[1, 2, 3]` stops at 2: the
      next `next()` yields 3. */
  method EveryStopsAtFailure() returns (all: bool, after: Option<int>)
    ensures !all && after == Some(3)
  {
    var c := new Cursor([1, 2, 3], false);
    var xit := Iter(c);
    ghost var e := [1, 2, 3];
    FindIndexFirst(x => !(x < 2), e);
    assert FindIndex(x => !(x < 2), e) == 1 by {
      assert !(e[1] < 2) && e[0] < 2;
    }
    all := EveryOf(x => x < 2, xit);
    assert e[2..] == [3];
    after := Pull(xit);
  }
}
