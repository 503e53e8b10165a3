/**
 * A child operator (an OpIterator) backed by a fixed sequence of tuples and a
 * read position. `Next` returns None where the Java iterator throws
 * NoSuchElementException.
 */
module Cursors {
  import opened Wrappers
  import opened Tuples

  /** What one pull contributes to an operator's output: its tuple, if any. */
  function Emitted(t: Option<Tuple>): seq<Tuple>
  {
    match t
    case None => []
    case Some(x) => [x]
  }

  class Cursor {
    const desc: TupleDesc
    const tuples: seq<Tuple>
    var pos: nat

    ghost predicate Valid()
      reads this
    {
      pos <= |tuples|
    }

    /** The tuples this cursor has still to produce. */
    ghost function Rest(): seq<Tuple>
      reads this
      requires Valid()
    {
      tuples[pos..]
    }

    constructor (desc: TupleDesc, tuples: seq<Tuple>)
      ensures Valid()
      ensures this.desc == desc && this.tuples == tuples && pos == 0
    {
      this.desc := desc;
      this.tuples := tuples;
      pos := 0;
    }

    /** OpIterator.open: ready to produce the first tuple. */
    method Open()
      modifies this
      ensures Valid() && pos == 0
    {
      pos := 0;
    }

    /** OpIterator.hasNext: whether a tuple is left, without consuming it. */
    method HasNext() returns (b: bool)
      requires Valid()
      ensures b <==> Rest() != []
    {
      b := pos < |tuples|;
    }

    /** OpIterator.next: the next tuple, or None at the end. */
    method Next() returns (r: Option<Tuple>)
      requires Valid()
      modifies this
      ensures Valid()
      ensures old(Rest()) == [] ==> r == None && pos == old(pos)
      ensures old(Rest()) != [] ==> r == Some(old(Rest())[0]) && Rest() == old(Rest())[1..]
      ensures old(Rest()) != [] ==> pos == old(pos) + 1
    {
      if pos < |tuples| {
        r := Some(tuples[pos]);
        pos := pos + 1;
      } else {
        r := None;
      }
    }

    /** OpIterator.rewind: start again from the first tuple. */
    method Rewind()
      modifies this
      ensures Valid() && pos == 0 && Rest() == tuples
    {
      pos := 0;
    }
  }
}
