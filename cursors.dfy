/** Single-pass iterators over a finite list of elements.
    An iterator object is either an array iterator (it has no `return`
    method) or a generator (its `return` method finishes it). A `for...of`
    loop that is left early (`break`, `return`) calls `return` on the
    iterator it walks. */
module Cursors {
  import opened Wrappers

  class Cursor<T> {
    /** everything the iterator yields over its whole life */
    const elems: seq<T>
    /** true for a generator, false for an array iterator */
    const closable: bool
    /** how many elements have been pulled */
    var pos: nat
    /** set once a generator has been finished by `return` */
    var closed: bool

    ghost predicate Valid()
      reads this
    {
      pos <= |elems| && (closed ==> closable)
    }

    /** What the next `next()` calls will yield, in order. */
    ghost function Remaining(): seq<T>
      reads this
      requires Valid()
    {
      if closed then [] else elems[pos..]
    }

    constructor (xs: seq<T>, closable: bool)
      ensures Valid() && elems == xs && this.closable == closable
      ensures pos == 0 && !closed && Remaining() == xs
    {
      elems, this.closable := xs, closable;
      pos, closed := 0, false;
    }

    /** `it.next()`: `None` is `{done: true}`. */
    method Next() returns (r: Option<T>)
      requires Valid()
      modifies this
      ensures Valid() && closed == old(closed)
      ensures old(Remaining()) == [] ==> r == None && pos == old(pos)
      ensures old(Remaining()) != [] ==> r == Some(old(Remaining())[0]) && pos == old(pos) + 1
      ensures Remaining() == if old(Remaining()) == [] then [] else old(Remaining())[1..]
    {
      if closed || pos == |elems| {
        r := None;
      } else {
        r := Some(elems[pos]);
        pos := pos + 1;
      }
    }

    /** `it.return()` as called by a `for...of` loop that is left early:
        a generator is finished, an array iterator (no `return` method) is
        left where it is. */
    method Return()
      requires Valid()
      modifies this
      ensures Valid() && pos == old(pos)
      ensures closable ==> Remaining() == []
      ensures !closable ==> Remaining() == old(Remaining())
    {
      if closable {
        closed := true;
      }
    }
  }
}
