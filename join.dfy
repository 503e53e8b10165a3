/**
 * The nested-loop Join operator: for each tuple of the left (outer) child, in
 * order, scan the right (inner) child and emit the concatenation of the two
 * tuples whenever the join predicate holds.
 */
module JoinOperator {
  import opened Wrappers
  import opened Tuples
  import opened Cursors

  /**
   * A JoinPredicate: the two field indices it compares and its `filter`,
   * taken as an arbitrary total function of the left and the right tuple.
   */
  datatype JoinPredicate = JoinPredicate(field1: int, field2: int, filter: (Tuple, Tuple) -> bool)

  /** The predicate that compares field `f1` of the left tuple for equality with field `f2` of the right. */
  function Equality(f1: int, f2: int): JoinPredicate
  {
    JoinPredicate(f1, f2, (l: Tuple, r: Tuple) => 0 <= f1 < |l| && 0 <= f2 < |r| && l[f1] == r[f2])
  }

  // ----- What the join produces -----

  /** Probing left tuple `l` from right position `j` on: its concatenation with every matching right tuple, in right order. */
  function ProbeFrom(l: Tuple, rs: seq<Tuple>, j: nat, f: (Tuple, Tuple) -> bool): seq<Tuple>
    decreases |rs| - j
  {
    if j >= |rs| then []
    else (if f(l, rs[j]) then [l + rs[j]] else []) + ProbeFrom(l, rs, j + 1, f)
  }

  /** The nested loop from left position `i` on: the probes of the remaining left tuples, in left order. */
  function JoinFrom(ls: seq<Tuple>, i: nat, rs: seq<Tuple>, f: (Tuple, Tuple) -> bool): seq<Tuple>
    decreases |ls| - i
  {
    if i >= |ls| then []
    else ProbeFrom(ls[i], rs, 0, f) + JoinFrom(ls, i + 1, rs, f)
  }

  /** The nested-loop join of two whole relations. */
  function NestedLoopJoin(ls: seq<Tuple>, rs: seq<Tuple>, f: (Tuple, Tuple) -> bool): seq<Tuple>
  {
    JoinFrom(ls, 0, rs, f)
  }

  // ----- An independent definition: the ordered cross product, filtered -----

  /** The pairs of `l` with each right tuple, in right order. */
  function Row(l: Tuple, rs: seq<Tuple>): (row: seq<(Tuple, Tuple)>)
    ensures |row| == |rs|
  {
    seq(|rs|, j requires 0 <= j < |rs| => (l, rs[j]))
  }

  function Flatten<T>(xss: seq<seq<T>>): seq<T>
  {
    if xss == [] then [] else xss[0] + Flatten(xss[1..])
  }

  /** The cross product of two relations, row after row: pair (i, j) comes before (i', j') iff (i, j) < (i', j') lexicographically. */
  function Cross(ls: seq<Tuple>, rs: seq<Tuple>): seq<(Tuple, Tuple)>
  {
    Flatten(seq(|ls|, i requires 0 <= i < |ls| => Row(ls[i], rs)))
  }

  /** The concatenations of the pairs that satisfy `f`, in the order of the pairs. */
  function Select(ps: seq<(Tuple, Tuple)>, f: (Tuple, Tuple) -> bool): seq<Tuple>
  {
    if ps == [] then []
    else (if f(ps[0].0, ps[0].1) then [ps[0].0 + ps[0].1] else []) + Select(ps[1..], f)
  }

  lemma {:induction false} SelectAppend(a: seq<(Tuple, Tuple)>, b: seq<(Tuple, Tuple)>, f: (Tuple, Tuple) -> bool)
    ensures Select(a + b, f) == Select(a, f) + Select(b, f)
  {
    if a == [] {
      assert a + b == b;
    } else {
      assert (a + b)[1..] == a[1..] + b;
      SelectAppend(a[1..], b, f);
    }
  }

  lemma {:induction false} ProbeIsSelectedRow(l: Tuple, rs: seq<Tuple>, j: nat, f: (Tuple, Tuple) -> bool)
    requires j <= |rs|
    ensures ProbeFrom(l, rs, j, f) == Select(Row(l, rs[j..]), f)
    decreases |rs| - j
  {
    if j < |rs| {
      assert Row(l, rs[j..])[1..] == Row(l, rs[j + 1..]);
      ProbeIsSelectedRow(l, rs, j + 1, f);
    } else {
      assert Row(l, rs[j..]) == [];
    }
  }

  lemma {:induction false} JoinFromIsSelectedCross(ls: seq<Tuple>, i: nat, rs: seq<Tuple>, f: (Tuple, Tuple) -> bool)
    requires i <= |ls|
    ensures JoinFrom(ls, i, rs, f) == Select(Cross(ls[i..], rs), f)
    decreases |ls| - i
  {
    var rows := seq(|ls[i..]|, k requires 0 <= k < |ls[i..]| => Row(ls[i..][k], rs));
    if i < |ls| {
      assert rows[1..] == seq(|ls[i + 1..]|, k requires 0 <= k < |ls[i + 1..]| => Row(ls[i + 1..][k], rs));
      assert Cross(ls[i..], rs) == Row(ls[i], rs) + Cross(ls[i + 1..], rs);
      SelectAppend(Row(ls[i], rs), Cross(ls[i + 1..], rs), f);
      ProbeIsSelectedRow(ls[i], rs, 0, f);
      assert rs[0..] == rs;
      JoinFromIsSelectedCross(ls, i + 1, rs, f);
    } else {
      assert rows == [];
    }
  }

  /** The nested loop emits exactly the predicate-filtered cross product, in cross-product order, duplicates kept. */
  lemma NestedLoopIsFilteredCross(ls: seq<Tuple>, rs: seq<Tuple>, f: (Tuple, Tuple) -> bool)
    ensures NestedLoopJoin(ls, rs, f) == Select(Cross(ls, rs), f)
  {
    JoinFromIsSelectedCross(ls, 0, rs, f);
    assert ls[0..] == ls;
  }

  /** A tuple is emitted by probing `l` from `j` on iff it is `l` followed by a later right tuple that matches `l`. */
  lemma {:induction false} ProbeMembers(l: Tuple, rs: seq<Tuple>, j: nat, f: (Tuple, Tuple) -> bool, t: Tuple)
    ensures t in ProbeFrom(l, rs, j, f) <==> exists b :: j <= b < |rs| && f(l, rs[b]) && t == l + rs[b]
    decreases |rs| - j
  {
    if j < |rs| {
      var here := if f(l, rs[j]) then [l + rs[j]] else [];
      ProbeMembers(l, rs, j + 1, f, t);
      assert ProbeFrom(l, rs, j, f) == here + ProbeFrom(l, rs, j + 1, f);
      if t in here {
        assert j <= j < |rs| && f(l, rs[j]) && t == l + rs[j];
      } else if t in ProbeFrom(l, rs, j + 1, f) {
        var b :| j + 1 <= b < |rs| && f(l, rs[b]) && t == l + rs[b];
        assert j <= b < |rs| && f(l, rs[b]) && t == l + rs[b];
      }
      if exists b :: j <= b < |rs| && f(l, rs[b]) && t == l + rs[b] {
        var b :| j <= b < |rs| && f(l, rs[b]) && t == l + rs[b];
        if b > j {
          assert j + 1 <= b < |rs| && f(l, rs[b]) && t == l + rs[b];
        }
      }
    }
  }

  /** A tuple is emitted by the nested loop from `i` on iff it joins some left tuple from `i` on with some matching right tuple. */
  lemma {:induction false} JoinFromMembers(ls: seq<Tuple>, i: nat, rs: seq<Tuple>, f: (Tuple, Tuple) -> bool, t: Tuple)
    ensures t in JoinFrom(ls, i, rs, f) <==>
      exists a, b :: i <= a < |ls| && 0 <= b < |rs| && f(ls[a], rs[b]) && t == ls[a] + rs[b]
    decreases |ls| - i
  {
    if i < |ls| {
      ProbeMembers(ls[i], rs, 0, f, t);
      JoinFromMembers(ls, i + 1, rs, f, t);
      if t in ProbeFrom(ls[i], rs, 0, f) {
        var b :| 0 <= b < |rs| && f(ls[i], rs[b]) && t == ls[i] + rs[b];
        assert i <= i < |ls| && f(ls[i], rs[b]) && t == ls[i] + rs[b];
      }
      if exists a, b :: i <= a < |ls| && 0 <= b < |rs| && f(ls[a], rs[b]) && t == ls[a] + rs[b] {
        var a, b :| i <= a < |ls| && 0 <= b < |rs| && f(ls[a], rs[b]) && t == ls[a] + rs[b];
        if a == i {
          assert 0 <= b < |rs| && f(ls[i], rs[b]) && t == ls[i] + rs[b];
        } else {
          assert i + 1 <= a < |ls| && 0 <= b < |rs| && f(ls[a], rs[b]) && t == ls[a] + rs[b];
        }
      }
    }
  }

  /**
   * The set of tuples the join emits is exactly { l + r | l in ls, r in rs, f(l, r) }:
   * nothing is missed and nothing else appears.
   */
  lemma NestedLoopMembers(ls: seq<Tuple>, rs: seq<Tuple>, f: (Tuple, Tuple) -> bool, t: Tuple)
    ensures t in NestedLoopJoin(ls, rs, f) <==>
      exists a, b :: 0 <= a < |ls| && 0 <= b < |rs| && f(ls[a], rs[b]) && t == ls[a] + rs[b]
  {
    JoinFromMembers(ls, 0, rs, f, t);
  }

  /** The example of the Join documentation: {1,2,3} joined with {1,5,6} on equality of the first column. */
  lemma EqualityJoinExample()
    ensures NestedLoopJoin([[IntField(1), IntField(2), IntField(3)]], [[IntField(1), IntField(5), IntField(6)]], Equality(0, 0).filter)
         == [[IntField(1), IntField(2), IntField(3), IntField(1), IntField(5), IntField(6)]]
  {
    var l := [IntField(1), IntField(2), IntField(3)];
    var r := [IntField(1), IntField(5), IntField(6)];
    assert ProbeFrom(l, [r], 1, Equality(0, 0).filter) == [];
    assert JoinFrom([l], 1, [r], Equality(0, 0).filter) == [];
    assert l + r == [IntField(1), IntField(2), IntField(3), IntField(1), IntField(5), IntField(6)];
  }

  // ----- The join's cursor state -----

  /**
   * What a nested-loop join still has to emit when its current left tuple is
   * `cur`, the left cursor is at `lpos` and the right cursor at `rpos`.
   */
  function Pending(cur: Option<Tuple>, ls: seq<Tuple>, lpos: nat, rs: seq<Tuple>, rpos: nat, f: (Tuple, Tuple) -> bool): seq<Tuple>
  {
    match cur
    case None => []
    case Some(l) => ProbeFrom(l, rs, rpos, f) + JoinFrom(ls, lpos, rs, f)
  }

  /**
   * When the rest of the right relation holds no match for `l`, reading the
   * next left tuple and rewinding the right cursor loses nothing.
   */
  lemma PendingAdvance(l: Tuple, ls: seq<Tuple>, lpos: nat, rs: seq<Tuple>, rpos: nat, f: (Tuple, Tuple) -> bool)
    requires lpos < |ls|
    requires ProbeFrom(l, rs, rpos, f) == []
    ensures Pending(Some(l), ls, lpos, rs, rpos, f) == Pending(Some(ls[lpos]), ls, lpos + 1, rs, 0, f)
  {
  }

  /** When neither the rest of the right relation nor any further left tuple remains, nothing is left to emit. */
  lemma PendingExhausted(l: Tuple, ls: seq<Tuple>, rs: seq<Tuple>, rpos: nat, f: (Tuple, Tuple) -> bool)
    requires ProbeFrom(l, rs, rpos, f) == []
    ensures Pending(Some(l), ls, |ls|, rs, rpos, f) == []
  {
  }

  /** A match found by the inner scan is the first tuple still to be emitted. */
  lemma PendingMatch(l: Tuple, ls: seq<Tuple>, lpos: nat, rs: seq<Tuple>, rpos: nat, rpos': nat, f: (Tuple, Tuple) -> bool, x: Tuple)
    requires ProbeFrom(l, rs, rpos, f) == [x] + ProbeFrom(l, rs, rpos', f)
    ensures Pending(Some(l), ls, lpos, rs, rpos, f) == [x] + Pending(Some(l), ls, lpos, rs, rpos', f)
  {
    var later, rest := ProbeFrom(l, rs, rpos', f), JoinFrom(ls, lpos, rs, f);
    calc {
      Pending(Some(l), ls, lpos, rs, rpos, f);
      ProbeFrom(l, rs, rpos, f) + rest;
      ([x] + later) + rest;
      [x] + (later + rest);
      [x] + Pending(Some(l), ls, lpos, rs, rpos', f);
    }
  }

  // ----- The operator -----

  class Join {
    const pred: JoinPredicate
    const left: Cursor    // children[0], the outer relation
    const right: Cursor   // children[1], the inner relation
    var curLeft: Option<Tuple>

    /**
     * The cursor invariant: the current left tuple, when there is one, is the
     * one the left child produced last; the two children are distinct objects.
     */
    ghost predicate Valid()
      reads this, left, right
    {
      && left != right
      && left.Valid() && right.Valid()
      && (curLeft.Some? ==> 0 < left.pos && curLeft.value == left.tuples[left.pos - 1])
    }

    /**
     * The tuples that the following calls of FetchNext will return, in order:
     * the rest of the current left tuple's probe, then the join of the left
     * tuples not yet read with the whole right relation.
     */
    ghost function Remaining(): seq<Tuple>
      reads this, left, right
      requires Valid()
    {
      Pending(curLeft, left.tuples, left.pos, right.tuples, right.pos, pred.filter)
    }

    constructor (p: JoinPredicate, child1: Cursor, child2: Cursor)
      requires child1 != child2 && child1.Valid() && child2.Valid()
      ensures Valid()
      ensures pred == p && left == child1 && right == child2 && curLeft == None
      ensures Remaining() == []
    {
      pred := p;
      left := child1;
      right := child2;
      curLeft := None;
    }

    /** The name of join field 1, looked up in the left child's schema. */
    function JoinField1Name(): (r: Result<string, Error>)
      ensures r.Success? <==> 0 <= pred.field1 < |left.desc|
      ensures r.Success? ==> r.value == left.desc[pred.field1].name
    {
      FieldName(left.desc, pred.field1)
    }

    /** The name of join field 2, looked up in the right child's schema. */
    function JoinField2Name(): (r: Result<string, Error>)
      ensures r.Success? <==> 0 <= pred.field2 < |right.desc|
      ensures r.Success? ==> r.value == right.desc[pred.field2].name
    {
      FieldName(right.desc, pred.field2)
    }

    /** The output schema: the left child's fields followed by the right child's. */
    function GetTupleDesc(): (d: TupleDesc)
      ensures |d| == |left.desc| + |right.desc|
      ensures forall i :: 0 <= i < |left.desc| ==> d[i] == left.desc[i]
      ensures forall i :: 0 <= i < |right.desc| ==> d[|left.desc| + i] == right.desc[i]
    {
      Merge(left.desc, right.desc)
    }

    /**
     * Open both children, then read the first left tuple. An empty left child
     * makes `next` throw, which `open` does not catch: curLeft keeps its value.
     */
    method Open() returns (o: Outcome<Error>)
      requires Valid()
      modifies this, left, right
      ensures Valid()
      ensures right.pos == 0
      ensures left.tuples == [] ==> o == Fail(NoSuchElement) && curLeft == old(curLeft) && left.pos == 0
      ensures left.tuples != [] ==> o == Pass && curLeft == Some(left.tuples[0]) && left.pos == 1
      ensures Remaining() == NestedLoopJoin(left.tuples, right.tuples, pred.filter)
    {
      left.Open();
      right.Open();
      var first := left.Next();
      if first.None? {
        return Fail(NoSuchElement);
      }
      curLeft := first;
      o := Pass;
    }

    /** Rewind both children and read the first left tuple again, exactly as Open does. */
    method Rewind() returns (o: Outcome<Error>)
      requires Valid()
      modifies this, left, right
      ensures Valid()
      ensures right.pos == 0
      ensures left.tuples == [] ==> o == Fail(NoSuchElement) && curLeft == old(curLeft) && left.pos == 0
      ensures left.tuples != [] ==> o == Pass && curLeft == Some(left.tuples[0]) && left.pos == 1
      ensures Remaining() == NestedLoopJoin(left.tuples, right.tuples, pred.filter)
    {
      left.Rewind();
      right.Rewind();
      var first := left.Next();
      if first.None? {
        return Fail(NoSuchElement);
      }
      curLeft := first;
      o := Pass;
    }

    /**
     * The next joined tuple, or None when the join is exhausted. The right
     * cursor stops just after a match; when it runs out, the left cursor
     * advances first and the right child is rewound second; when the left
     * child runs out, the right one stays exhausted.
     */
    method FetchNext() returns (t: Option<Tuple>)
      requires Valid()
      modifies this, left, right
      ensures Valid()
      ensures old(Remaining()) == Emitted(t) + Remaining()
      ensures t.None? ==> Remaining() == []
      ensures t.Some? ==>
                && curLeft.Some? && 0 < right.pos
                && pred.filter(curLeft.value, right.tuples[right.pos - 1])
                && t.value == curLeft.value + right.tuples[right.pos - 1]
      ensures t.None? && old(curLeft).Some? ==>
                curLeft.Some? && left.pos == |left.tuples| && right.pos == |right.tuples|
      ensures old(curLeft).None? ==>
                t == None && curLeft == None && left.pos == old(left.pos) && right.pos == old(right.pos)
    {
      t := None;
      if curLeft.None? {
        return;
      }
      ghost var before := Remaining();
      while true
        invariant Valid() && curLeft.Some?
        invariant Remaining() == before
        decreases |left.tuples| - left.pos
      {
        var l := curLeft.value;
        ghost var lpos, rpos := left.pos, right.pos;
        assert before == Pending(Some(l), left.tuples, lpos, right.tuples, rpos, pred.filter);
        t := ScanRight(l);
        if t.Some? {
          PendingMatch(l, left.tuples, lpos, right.tuples, rpos, right.pos, pred.filter, t.value);
          return;
        }
        // No match for the current left tuple: advance the left child, then rewind the right one.
        var next := left.Next();
        if next.None? {
          // The left child is exhausted (Java's NoSuchElementException): the right one is not rewound.
          PendingExhausted(l, left.tuples, right.tuples, rpos, pred.filter);
          return;
        }
        PendingAdvance(l, left.tuples, lpos, right.tuples, rpos, pred.filter);
        curLeft := next;
        right.Rewind();
        assert Remaining() == Pending(Some(left.tuples[lpos]), left.tuples, lpos + 1, right.tuples, 0, pred.filter);
      }
    }

    /**
     * The inner loop of FetchNext: read right tuples until one matches `l`.
     * On a match the right cursor stays just after the matching tuple.
     */
    method ScanRight(l: Tuple) returns (t: Option<Tuple>)
      requires right.Valid()
      modifies right
      ensures right.Valid()
      ensures t.None? ==> right.pos == |right.tuples| && old(ProbeFrom(l, right.tuples, right.pos, pred.filter)) == []
      ensures t.Some? ==> old(ProbeFrom(l, right.tuples, right.pos, pred.filter)) == [t.value] + ProbeFrom(l, right.tuples, right.pos, pred.filter)
      ensures t.Some? ==>
                && 0 < right.pos
                && pred.filter(l, right.tuples[right.pos - 1])
                && t.value == l + right.tuples[right.pos - 1]
    {
      ghost var probe := ProbeFrom(l, right.tuples, right.pos, pred.filter);
      var more := right.HasNext();
      while more
        invariant right.Valid()
        invariant more <==> right.pos < |right.tuples|
        invariant ProbeFrom(l, right.tuples, right.pos, pred.filter) == probe
        decreases |right.tuples| - right.pos
      {
        var r := right.Next();
        if pred.filter(l, r.value) {
          var joined := JoinTuples(l, r.value);
          return Some(joined);
        }
        more := right.HasNext();
      }
      return None;
    }

    /** The tuple whose fields are those of `l` followed by those of `r`. */
    static method JoinTuples(l: Tuple, r: Tuple) returns (t: Tuple)
      ensures |t| == |l| + |r|
      ensures forall i :: 0 <= i < |l| ==> t[i] == l[i]
      ensures forall i :: 0 <= i < |r| ==> t[|l| + i] == r[i]
      ensures t == l + r
    {
      var fields := new Value[|l| + |r|];
      var i := 0;
      while i < |l|
        invariant 0 <= i <= |l|
        invariant forall k :: 0 <= k < i ==> fields[k] == l[k]
      {
        fields[i] := l[i];
        i := i + 1;
      }
      i := 0;
      while i < |r|
        invariant 0 <= i <= |r|
        invariant forall k :: 0 <= k < |l| ==> fields[k] == l[k]
        invariant forall k :: 0 <= k < i ==> fields[|l| + k] == r[k]
      {
        fields[i + |l|] := r[i];
        i := i + 1;
      }
      t := fields[..];
      assert t == l + r;
    }
  }

  /**
   * A consumer pulling tuples until the first None: what it collects is
   * exactly what the join had left to produce.
   */
  method Drain(j: Join) returns (out: seq<Tuple>)
    requires j.Valid()
    modifies j, j.left, j.right
    ensures j.Valid() && j.Remaining() == []
    ensures out == old(j.Remaining())
  {
    ghost var all := j.Remaining();
    out := [];
    while true
      invariant j.Valid()
      invariant all == out + j.Remaining()
      decreases |j.Remaining()|
    {
      ghost var before := j.Remaining();
      var t := j.FetchNext();
      if t.None? {
        return;
      }
      assert before == [t.value] + j.Remaining();
      out := out + [t.value];
    }
  }

  /**
   * Rewinding after a partial read restarts the join: Open, any number of
   * FetchNext calls, Rewind, then a full read yields the whole join.
   */
  method RewindRestarts(j: Join, pulls: nat) returns (out: seq<Tuple>)
    requires j.Valid()
    modifies j, j.left, j.right
    ensures out == NestedLoopJoin(j.left.tuples, j.right.tuples, j.pred.filter)
  {
    var o := j.Open();
    var i := 0;
    while i < pulls
      invariant j.Valid()
    {
      var t := j.FetchNext();
      i := i + 1;
    }
    o := j.Rewind();
    out := Drain(j);
  }

  /**
   * Once FetchNext has returned None, the next call returns None as well:
   * the left child stays exhausted and the right one is not rewound.
   */
  method ExhaustedStaysExhausted(j: Join) returns (first: Option<Tuple>, second: Option<Tuple>)
    requires j.Valid()
    modifies j, j.left, j.right
    ensures first.None? ==> second.None?
  {
    first := j.FetchNext();
    second := j.FetchNext();
  }

  /** The join-field names are the names the output schema carries at the two compared fields. */
  lemma JoinFieldNamesInOutputSchema(j: Join)
    ensures j.JoinField1Name().Success? ==> j.GetTupleDesc()[j.pred.field1].name == j.JoinField1Name().value
    ensures j.JoinField2Name().Success? ==>
              j.GetTupleDesc()[|j.left.desc| + j.pred.field2].name == j.JoinField2Name().value
  {
  }
}
