/**
 * The Aggregate operator: on open it drains its child into a per-type
 * aggregator chosen once from the aggregated field's type, then emits the
 * aggregator's result tuples; rewind re-reads those results, never the child.
 */
module AggregateOperator {
  import opened Wrappers
  import opened Tuples
  import opened Cursors

  /** Aggregator.NO_GROUPING: the group-by index meaning "no grouping". */
  const NO_GROUPING: int := -1

  /** Aggregator.Op: carried to the per-type aggregator, never interpreted here. */
  datatype AggOp = Min | Max | Sum | Avg | Count | SumCount | ScAvg

  /** The two per-type aggregators. */
  datatype AggregatorKind = IntegerAggregator | StringAggregator

  /**
   * A per-type aggregator as Aggregate sees it: the arguments it was built
   * with and the tuples merged into it, in merge order. How it accumulates
   * its groups is not part of this model.
   */
  datatype Aggregator = Aggregator(
    kind: AggregatorKind,
    gbField: int,
    gbFieldType: Option<FieldType>,
    aField: int,
    op: AggOp,
    merged: seq<Tuple>)
  {
    /** mergeTupleIntoGroup: one more tuple accumulated. */
    function MergeTupleIntoGroup(t: Tuple): Aggregator
    {
      this.(merged := merged + [t])
    }
  }

  class Aggregate {
    const child: Cursor
    const aggField: int
    const gField: int
    const aop: AggOp
    /** The tuples that an aggregator's iterator yields, as a function of its state (the per-type aggregators are not part of this model). */
    const results: Aggregator -> seq<Tuple>
    var aggregator: Option<Aggregator>
    var iter: Cursor?   // the field `iterator`: the open result iterator, null before open

    /** Once a result iterator exists, it runs over the results of the current aggregator. */
    ghost predicate Valid()
      reads this, child, iter
    {
      && child.Valid()
      && (iter != null ==>
            && iter != child
            && iter.Valid()
            && aggregator.Some?
            && iter.tuples == results(aggregator.value))
    }

    /** The tuples that the following calls of FetchNext will return, in order. */
    ghost function Remaining(): seq<Tuple>
      reads this, child, iter
      requires Valid()
    {
      if iter == null then [] else iter.Rest()
    }

    constructor (child: Cursor, afield: int, gfield: int, aop: AggOp, results: Aggregator -> seq<Tuple>)
      requires child.Valid()
      ensures Valid()
      ensures this.child == child && this.results == results
      ensures AggregateField() == afield && GroupField() == gfield && AggregateOp() == aop
      ensures aggregator == None && iter == null && Remaining() == []
    {
      this.child := child;
      aggField := afield;
      gField := gfield;
      this.aop := aop;
      this.results := results;
      aggregator := None;
      iter := null;
    }

    /** The group-by field index in the input tuples, or NO_GROUPING. */
    function GroupField(): int
    {
      gField
    }

    /** The aggregated field index in the input tuples. */
    function AggregateField(): int
    {
      aggField
    }

    /** The aggregation operator. */
    function AggregateOp(): AggOp
    {
      aop
    }

    /**
     * The group-by field's name: no name (Java's null) exactly when there is
     * no grouping, otherwise the child schema's name at the group-by index.
     */
    function GroupFieldName(): (r: Result<Option<string>, Error>)
      ensures r == Success(None) <==> gField == NO_GROUPING
      ensures gField != NO_GROUPING ==> (r.Success? <==> 0 <= gField < |child.desc|)
      ensures gField != NO_GROUPING && r.Success? ==> r.value == Some(child.desc[gField].name)
    {
      if gField != NO_GROUPING then
        match FieldName(child.desc, gField)
        case Success(name) => Success(Some(name))
        case Failure(e) => Failure(e)
      else
        Success(None)
    }

    /** The aggregated field's name, looked up in the child's schema. */
    function AggregateFieldName(): (r: Result<string, Error>)
      ensures r.Success? <==> 0 <= aggField < |child.desc|
      ensures r.Success? ==> r.value == child.desc[aggField].name
    {
      FieldName(child.desc, aggField)
    }

    /** The declared output schema: the child's own schema, whatever the grouping. */
    function GetTupleDesc(): (d: TupleDesc)
      ensures d == child.desc
    {
      child.desc
    }

    /**
     * The aggregator that a build over the child tuples `ts` produces: the
     * integer aggregator exactly when the aggregated field has type INT_TYPE,
     * with every tuple of `ts` merged into it once, in order.
     */
    function Built(ts: seq<Tuple>): (a: Aggregator)
      ensures a.kind == IntegerAggregator <==> FieldTypeAt(child.desc, aggField) == Some(IntType)
      ensures a.kind == StringAggregator <==> FieldTypeAt(child.desc, aggField) != Some(IntType)
      ensures a.gbField == gField && a.aField == aggField && a.op == aop
      ensures a.gbFieldType == FieldTypeAt(child.desc, gField)
      ensures a.merged == ts
    {
      var kind := if FieldTypeAt(child.desc, aggField) == Some(IntType) then IntegerAggregator else StringAggregator;
      Aggregator(kind, gField, FieldTypeAt(child.desc, gField), aggField, aop, ts)
    }

    /**
     * calculateAggregation: choose the aggregator once from the aggregated
     * field's type, then merge every tuple the child still has, in order.
     */
    method CalculateAggregation()
      requires child.Valid()
      modifies this`aggregator, child
      ensures child.Valid() && child.Rest() == []
      ensures aggregator == Some(Built(old(child.Rest())))
    {
      var aggFieldType := FieldTypeAt(child.desc, aggField);
      if aggFieldType == Some(IntType) {
        aggregator := Some(Aggregator(IntegerAggregator, gField, FieldTypeAt(child.desc, gField), aggField, aop, []));
      } else {
        aggregator := Some(Aggregator(StringAggregator, gField, FieldTypeAt(child.desc, gField), aggField, aop, []));
      }
      ghost var start := child.pos;
      var more := child.HasNext();
      while more
        invariant child.Valid() && start <= child.pos
        invariant more <==> child.Rest() != []
        invariant aggregator == Some(Built(child.tuples[start..child.pos]))
        decreases |child.tuples| - child.pos
      {
        var next := child.Next();
        assert child.tuples[start..child.pos] == child.tuples[start..child.pos - 1] + [next.value];
        aggregator := Some(aggregator.value.MergeTupleIntoGroup(next.value));
        more := child.HasNext();
      }
      assert child.tuples[start..child.pos] == old(child.Rest());
    }

    /** Open the child, build the aggregate from all of its tuples, then open a fresh result iterator. */
    method Open()
      requires Valid()
      modifies this, child
      ensures Valid() && fresh(iter)
      ensures child.Rest() == []
      ensures aggregator == Some(Built(child.tuples))
      ensures Remaining() == results(aggregator.value)
    {
      child.Open();
      CalculateAggregation();
      iter := new Cursor([], results(aggregator.value));
      iter.Open();
    }

    /** The next result tuple, unchanged, or None before Open and at the end of the results. */
    method FetchNext() returns (t: Option<Tuple>)
      requires Valid()
      modifies iter
      ensures Valid()
      ensures old(Remaining()) == Emitted(t) + Remaining()
      ensures t.None? ==> Remaining() == []
      ensures old(iter) == null ==> t == None
    {
      if iter == null {
        return None;
      }
      var more := iter.HasNext();
      if !more {
        return None;
      }
      t := iter.Next();
    }

    /**
     * Replace the result iterator by a fresh one over the same aggregator; the
     * child is neither read nor moved. Before Open there is no aggregator to
     * iterate over (a NullPointerException in Java).
     */
    method Rewind() returns (o: Outcome<Error>)
      requires Valid()
      modifies this
      ensures Valid()
      ensures aggregator == old(aggregator) && unchanged(child)
      ensures old(aggregator).None? ==> o == Fail(NotOpened) && iter == old(iter)
      ensures old(aggregator).Some? ==> o == Pass && fresh(iter) && Remaining() == results(aggregator.value)
    {
      if aggregator.None? {
        return Fail(NotOpened);
      }
      iter := new Cursor([], results(aggregator.value));
      iter.Open();
      o := Pass;
    }
  }

  /** A consumer pulling result tuples until the first None: it collects exactly what was left. */
  method Drain(a: Aggregate) returns (out: seq<Tuple>)
    requires a.Valid()
    modifies a.iter
    ensures a.Valid() && a.Remaining() == []
    ensures out == old(a.Remaining())
  {
    ghost var all := a.Remaining();
    out := [];
    while true
      invariant a.Valid() && a.iter == old(a.iter)
      invariant all == out + a.Remaining()
      decreases |a.Remaining()|
    {
      ghost var before := a.Remaining();
      var t := a.FetchNext();
      if t.None? {
        return;
      }
      assert before == [t.value] + a.Remaining();
      out := out + [t.value];
    }
  }

  /**
   * Rewind replays the output of Open without touching the child: from a
   * freshly opened aggregate, a full read, Rewind and a second full read
   * return the same tuples, the results of the current aggregator, and
   * neither the child nor the aggregator changes in between.
   */
  method ReplayAfterRewind(a: Aggregate) returns (first: seq<Tuple>, second: seq<Tuple>)
    requires a.Valid() && a.iter != null && a.Remaining() == a.results(a.aggregator.value)
    modifies a, a.iter
    ensures unchanged(a.child) && a.aggregator == old(a.aggregator)
    ensures first == second == a.results(a.aggregator.value)
  {
    first := Drain(a);
    var o := a.Rewind();
    second := Drain(a);
  }

  /**
   * Open followed by a read, a Rewind and a second read: both reads return the
   * results of the aggregator built from all of the child's tuples, and only
   * Open reads the child.
   */
  method OpenThenReplay(a: Aggregate) returns (first: seq<Tuple>, second: seq<Tuple>)
    requires a.Valid()
    modifies a, a.child
    ensures first == second == a.results(a.Built(a.child.tuples))
    ensures a.child.Valid() && a.child.Rest() == []
  {
    a.Open();
    first, second := ReplayAfterRewind(a);
  }
}
