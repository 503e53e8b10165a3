# SimpleDB Join and Aggregate operators

This project models two pull-based relational operators of SimpleDB, a small
teaching database written in Java:

- **Join**: a nested-loop join. For each tuple of the left (outer) child, in
  order, it scans the right (inner) child. Whenever the join predicate holds,
  it emits the concatenation of the two tuples. The state between calls is
  `curLeft` (the current left tuple) plus the positions of the two child
  cursors.
- **Aggregate**: an eager grouped aggregation. `open` drains its child into a
  per-type aggregator (integer or string). The aggregator kind is chosen once,
  from the aggregated field's type. `open` then iterates over the
  aggregator's results. `rewind` starts a fresh result iterator and never
  re-reads the child.

Files:

- `wrappers.dfy`: the `Option`, `Result` and `Outcome` datatypes.
- `tuples.dfy`:
  - field values, field types and schemas (`TupleDesc` as a sequence of
    name/type pairs);
  - tuples as sequences of values;
  - the schema operations the operators call: merge, name lookup and type
    lookup.
- `cursor.dfy`: an operator's child. It is a class over a fixed sequence of
  tuples with a position. `Next` returns `None` where Java's `next()` throws
  `NoSuchElementException`, and `Rewind` returns to the start.
- `join.dfy`:
  - the join's specification functions: `ProbeFrom`, `JoinFrom` and
    `NestedLoopJoin`;
  - an independent reference: `Select(Cross(ls, rs), f)`, the ordered cross
    product filtered by the predicate;
  - the lemmas linking the two;
  - the `Join` class, whose methods update `curLeft` and move the child
    cursors.
- `aggregate.dfy`: the `Aggregate` class. Its fields `aggregator` and `iter`
  (Java's `iterator`) are reassigned by `Open`, `CalculateAggregation` and
  `Rewind`.

Each stateful operator has a ghost function `Remaining()`: the tuples that the
following `FetchNext` calls will return, in order. Every `FetchNext` is proved
against it:

- `old(Remaining()) == Emitted(t) + Remaining()`;
- on `None`, nothing remains.

`Open` and `Rewind` state what `Remaining()` becomes:

- for Join, the whole nested-loop join of the two children;
- for Aggregate, the results of the aggregator built from all child tuples.

The `Drain` methods show that reading until the first `None` yields exactly
`Remaining()`.

Aggregate's `getTupleDesc` follows the code: it returns the child's schema.
This contradicts the method's doc comment, which describes a one- or
two-column output schema.

## Model

| member | source | states |
|---|---|---|
| Tuples.Merge | src/main/java/simpledb/Join.java:62-66 | the merged schema has the left fields at their own indices followed by the right fields shifted by the left arity, and nothing else |
| Tuples.FieldName | src/main/java/simpledb/Join.java:43-46 | a name lookup succeeds exactly when the index is in range, yields that field's name, and otherwise fails with BadFieldIndex |
| Tuples.FieldTypeAt | src/main/java/simpledb/Aggregate.java:87-95 | a type lookup yields a type exactly when the index is in range, and then it is that field's type |
| JoinOperator.ProbeIsSelectedRow | src/main/java/simpledb/Join.java:114-120 | the inner scan of one left tuple from right position j emits the predicate-filtered pairs of that tuple with the right tuples from j on, in right order |
| JoinOperator.JoinFromIsSelectedCross | src/main/java/simpledb/Join.java:113-127 | the nested loop from left position i emits the filtered cross product of the remaining left tuples with the whole right relation |
| JoinOperator.NestedLoopIsFilteredCross | src/main/java/simpledb/Join.java:88-101 | the join output is exactly the ordered cross product filtered by the predicate, left-major, duplicates kept |
| JoinOperator.ProbeMembers | src/main/java/simpledb/Join.java:114-119 | a tuple comes out of the inner scan iff it is the left tuple followed by a later right tuple that satisfies the predicate |
| JoinOperator.JoinFromMembers | src/main/java/simpledb/Join.java:113-127 | a tuple comes out of the loop from left position i iff it is some left tuple at or after i followed by a matching right tuple |
| JoinOperator.NestedLoopMembers | src/main/java/simpledb/Join.java:88-92 | a tuple is in the join iff it is the concatenation of a left and a right tuple that satisfy the predicate (both directions) |
| JoinOperator.EqualityJoinExample | src/main/java/simpledb/Join.java:100-101 | {1,2,3} joined with {1,5,6} on equality of the first column gives exactly {1,2,3,1,5,6} |
| JoinOperator.PendingAdvance | src/main/java/simpledb/Join.java:123-126 | when the right relation holds no further match, reading the next left tuple and rewinding the right child keeps the pending output unchanged |
| JoinOperator.PendingExhausted | src/main/java/simpledb/Join.java:124-129 | when no further match and no further left tuple exist, nothing remains to be emitted |
| JoinOperator.PendingMatch | src/main/java/simpledb/Join.java:116-119 | a match found by the inner scan is the first pending tuple, and the rest is pending from just after it |
| JoinOperator.Join.constructor | src/main/java/simpledb/Join.java:27-32 | stores the predicate and the two children, with no current left tuple and nothing to emit |
| JoinOperator.Join.JoinField1Name | src/main/java/simpledb/Join.java:43-46 | field 1's name is looked up in the left child's schema at the predicate's first index; it fails exactly when that index is out of range |
| JoinOperator.Join.JoinField2Name | src/main/java/simpledb/Join.java:53-56 | field 2's name is looked up in the right child's schema at the predicate's second index; it fails exactly when that index is out of range |
| JoinOperator.Join.GetTupleDesc | src/main/java/simpledb/Join.java:62-66 | the output schema is the left schema followed by the right schema, field by field |
| JoinOperator.JoinFieldNamesInOutputSchema | src/main/java/simpledb/Join.java:43-66 | the two join-field names are the names the output schema carries at field1 and at left arity + field2 |
| JoinOperator.Join.Open | src/main/java/simpledb/Join.java:68-74 | both children are opened and the first left tuple becomes curLeft; on an empty left child the call fails with NoSuchElement and curLeft is left as it was; in both cases what remains to be emitted is the whole nested-loop join |
| JoinOperator.Join.Rewind | src/main/java/simpledb/Join.java:82-86 | rewinds both children and reloads curLeft like Open, so what remains is again the whole nested-loop join |
| JoinOperator.Join.FetchNext | src/main/java/simpledb/Join.java:106-131 | returns the first pending tuple and removes exactly it, or None only when nothing is pending; a returned tuple is curLeft followed by the right tuple just read, which satisfies the predicate; after None with a current left tuple both children are exhausted; with no current left tuple it returns None and moves nothing |
| JoinOperator.Join.ScanRight | src/main/java/simpledb/Join.java:114-120 | scans the right child from its position: on a match it stops just after the matching tuple and returns the first probe result; otherwise it exhausts the right child, and the probe from the start position was empty |
| JoinOperator.Join.JoinTuples | src/main/java/simpledb/Join.java:134-145 | the joined tuple has left arity + right arity fields: field i below the left arity is left[i], field left arity + i is right[i] |
| JoinOperator.Drain | src/main/java/simpledb/Join.java:88-131 | pulling tuples until the first None collects exactly what was pending, in order, and leaves nothing pending |
| JoinOperator.RewindRestarts | src/main/java/simpledb/Join.java:68-86 | after Open, any number of pulls, then Rewind, a full read yields the whole nested-loop join |
| JoinOperator.ExhaustedStaysExhausted | src/main/java/simpledb/Join.java:123-129 | once FetchNext has returned None, the next call returns None too |
| AggregateOperator.Aggregate.constructor | src/main/java/simpledb/Aggregate.java:39-55 | stores child, afield, gfield and aop, which groupField, aggregateField and aggregateOp return unchanged; no aggregator and no result iterator yet |
| AggregateOperator.Aggregate.GroupFieldName | src/main/java/simpledb/Aggregate.java:62-69 | no name (null) exactly when gField is NO_GROUPING; otherwise the child schema's name at gField, or BadFieldIndex exactly when gField is out of range |
| AggregateOperator.Aggregate.AggregateFieldName | src/main/java/simpledb/Aggregate.java:82-85 | the child schema's name at aggField, failing exactly when aggField is out of range |
| AggregateOperator.Aggregate.GetTupleDesc | src/main/java/simpledb/Aggregate.java:167-169 | the output schema is the child's schema unchanged |
| AggregateOperator.Aggregate.Built | src/main/java/simpledb/Aggregate.java:112-117 | the aggregator is the integer one iff the aggregated field's type is INT_TYPE, the string one otherwise; it is built with gField, the group type, aggField and aop, and holds the given tuples in order |
| AggregateOperator.Aggregate.CalculateAggregation | src/main/java/simpledb/Aggregate.java:108-123 | chooses the aggregator kind once, then merges every tuple the child still had exactly once and in child order, leaving the child exhausted |
| AggregateOperator.Aggregate.Open | src/main/java/simpledb/Aggregate.java:125-133 | opens and drains the child, builds the aggregator from all of its tuples, and opens a fresh result iterator over that aggregator's results |
| AggregateOperator.Aggregate.FetchNext | src/main/java/simpledb/Aggregate.java:142-148 | returns None before Open and at the end of the results; otherwise it returns the next result tuple unchanged and removes exactly it |
| AggregateOperator.Aggregate.Rewind | src/main/java/simpledb/Aggregate.java:150-154 | replaces only the result iterator with a fresh one over the same aggregator, leaving the child and the aggregator unchanged; before Open it fails with NotOpened |
| AggregateOperator.Drain | src/main/java/simpledb/Aggregate.java:142-148 | pulling result tuples until the first None collects exactly what was left, in order |
| AggregateOperator.ReplayAfterRewind | src/main/java/simpledb/Aggregate.java:150-154 | from a freshly opened aggregate, a full read, Rewind and a second full read return the same tuples (the current aggregator's results), while the child and the aggregator stay unchanged: rewind never re-reads the child |
| AggregateOperator.OpenThenReplay | src/main/java/simpledb/Aggregate.java:125-154 | after Open, a read, Rewind and a second read both return the results of the aggregator built from all child tuples, and the child is left exhausted by Open alone |

## Left out

- Children are sequence-backed cursors over fixed contents. A child whose contents change between `open` and `rewind` is not modelled.
- The Operator base class is not modelled. Its `hasNext`/`next` lookahead and `open`/`close` bookkeeping are left out, and `FetchNext` is modelled directly.
- `close`, `getChildren`/`setChildren`, `serialVersionUID`, `getJoinPredicate` and `nameOfAggregatorOp` are plumbing. `getJoinPredicate` is the `pred` field itself. `close` includes Aggregate's null dereference when it was never opened.
- `DbException` and `TransactionAbortedException` from storage and locking are not modelled. No transaction semantics are modelled either.
- The join predicate's `filter` is an arbitrary total function of two tuples. `Equality` is one instance of it, used in the documented example.
- The internals of `Tuple`, `TupleDesc` and `Type` are not part of this model.
- Tuples are value sequences whose arity is not tied to a schema.
- Tuples.Merge: `TupleDesc.merge` is not part of this model. It is assumed to concatenate the two schemas.
- JoinOperator.Join.constructor: the two children must be distinct cursor objects. Java also accepts one shared iterator for both sides; joining a shared iterator with itself is not modelled, because its two positions would alias.
- JoinOperator.Join.JoinTuples: Java creates a tuple for the merged schema and fills it with `setField`. The model fills an array of the two arities without consulting a schema.
- JoinOperator.Join.Open: an empty left child makes Java's `open` throw `NoSuchElementException`. The model returns `Fail(NoSuchElement)` instead and leaves `curLeft` unchanged.
- JoinOperator.Join.Rewind: an empty left child is handled the same way as in `Open`.
- Join field names:
  - Java's `getFieldName` on an index outside the schema throws.
  - The model returns `Failure(BadFieldIndex)`.
  - The same applies to `AggregateOperator.Aggregate.GroupFieldName` and `AggregateOperator.Aggregate.AggregateFieldName`.
- `IntegerAggregator` and `StringAggregator` are not part of this model:
  - their accumulation arithmetic and the order of their result iterator are not modelled;
  - an aggregator is its build arguments plus the tuples merged into it, in order;
  - the results are an arbitrary function of that state (`results`);
  - the result iterator's own schema is not modelled.
- AggregateOperator.Aggregate.Built:
  - the group-by type is `FieldTypeAt(child schema, gField)`, so it is `None` when gField is out of range, including `NO_GROUPING`;
  - without grouping, Java calls `getFieldType(-1)`, whose behaviour depends on `TupleDesc`, which is not part of this model;
  - the model lets the ungrouped build go ahead with group type `None`.
- AggregateOperator.Aggregate.CalculateAggregation: an aggField outside the child schema selects the string aggregator. What Java does there depends on `TupleDesc.getFieldType`, which is not part of this model.
- AggregateOperator.Aggregate.Rewind: before `open` Java dereferences a null aggregator. The model returns `Fail(NotOpened)` and changes nothing.
