/**
 * Tuples and tuple descriptors as the operators see them. SimpleDB's Tuple,
 * TupleDesc and Type classes are not part of this model; only the behaviour
 * the operators rely on is stated here.
 */
module Tuples {
  import opened Wrappers

  /** A field value (SimpleDB's IntField and StringField). */
  datatype Value = IntField(i: int) | StringField(s: string)

  /** The type of a field (SimpleDB's Type.INT_TYPE and Type.STRING_TYPE). */
  datatype FieldType = IntType | StringType

  /** One entry of a tuple descriptor: the field's name and its type. */
  datatype FieldDesc = FieldDesc(name: string, fieldType: FieldType)

  /** A schema: the ordered (name, type) pairs of a relation. */
  type TupleDesc = seq<FieldDesc>

  /** A tuple: its field values in schema order. */
  type Tuple = seq<Value>

  /** The errors that the modelled operations can raise. */
  datatype Error =
    | NoSuchElement   // a child was asked for a tuple it does not have
    | BadFieldIndex   // a schema was asked about a field index it does not have
    | NotOpened       // an operator was used before it was opened

  /**
   * TupleDesc.merge: the fields of `a` followed by those of `b`, each side
   * keeping its own names and types and its own order.
   */
  function Merge(a: TupleDesc, b: TupleDesc): (m: TupleDesc)
    ensures |m| == |a| + |b|
    ensures forall i :: 0 <= i < |a| ==> m[i] == a[i]
    ensures forall i :: 0 <= i < |b| ==> m[|a| + i] == b[i]
  {
    a + b
  }

  /** TupleDesc.getFieldName: the name at index `i`, failing when `i` names no field. */
  function FieldName(d: TupleDesc, i: int): (r: Result<string, Error>)
    ensures r.Success? <==> 0 <= i < |d|
    ensures r.Success? ==> r.value == d[i].name
    ensures r.Failure? ==> r.error == BadFieldIndex
  {
    if 0 <= i < |d| then Success(d[i].name) else Failure(BadFieldIndex)
  }

  /**
   * TupleDesc.getFieldType: the type at index `i`, or None when `i` names no
   * field (what SimpleDB's TupleDesc then does is not part of this model).
   */
  function FieldTypeAt(d: TupleDesc, i: int): (r: Option<FieldType>)
    ensures r.Some? <==> 0 <= i < |d|
    ensures r.Some? ==> r.value == d[i].fieldType
  {
    if 0 <= i < |d| then Some(d[i].fieldType) else None
  }
}
