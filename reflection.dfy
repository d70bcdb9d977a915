/**
  The part of the host runtime that the field observer reaches through
  reflection: object references, field values and name-based field lookup.

  Reflection itself (GetType, GetField with instance/public/non-public
  binding flags, FieldInfo.GetValue) is replaced by a `Heap` value that says
  which named fields each target has and what they currently hold.
 */
module Reflection {

  /** Identity of a live object (the registry compares targets by reference). */
  type TargetId(==, !new)

  /** A field value as returned by FieldInfo.GetValue; `==` stands for object.Equals. */
  type Value(==, !new)

  /** An object reference as the source stores it: possibly null. */
  datatype Ref = Null | Obj(id: TargetId)

  /** A resolved field accessor (the cached FieldInfo): it reads the named field. */
  datatype FieldHandle = FieldHandle(name: string)

  /**
    A snapshot of the objects the registry can read. A pair `(t, name)` is a
    key of `values` exactly when the runtime type of `t` has an instance
    field called `name` that the lookup with instance, public and non-public
    binding finds; its entry is the field's current value.
   */
  datatype Heap = Heap(values: map<(TargetId, string), Value>)

  /** The field lookup `type.GetField(name, ...)`: null (None) when there is no such field. */
  function Resolve(heap: Heap, t: TargetId, name: string): (r: Option<FieldHandle>)
    ensures r.Some? <==> (t, name) in heap.values
    ensures r.Some? ==> r.value.name == name
  {
    if (t, name) in heap.values then Some(FieldHandle(name)) else None
  }

  /** Whether a resolved accessor can read its field from `t` in this heap. */
  predicate CanRead(heap: Heap, t: TargetId, field: FieldHandle)
  {
    (t, field.name) in heap.values
  }

  /** `field.GetValue(t)`. */
  function Read(heap: Heap, t: TargetId, field: FieldHandle): (v: Value)
    requires CanRead(heap, t, field)
  {
    heap.values[(t, field.name)]
  }

  datatype Option<+T> = None | Some(value: T)
}
