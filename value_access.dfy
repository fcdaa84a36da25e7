/**
  The checked accessors of src/lib/plc_comm.c. Each takes a node pointer and
  an out-pointer and answers a status with what the out-pointer then holds.
  The field accessors write exactly one value on VAL_OK and nothing on an
  error; GetValue hands the out-pointer to the node's decoder, which may
  write it whatever it answers. They only read the arena, so none of them
  can change a node's dirty flag.
 */
module ValueAccess {
  import opened Wrappers
  import opened Values

  /** value_get_type: the type masked to 16 bits, so a device reports STRUCTURE. */
  function GetType(nodes: seq<Node>, v: Ref, out: Slot<bv32>): (r: (ValStatus, Slot<bv32>))
    requires WellFormed(nodes) && ValidRef(nodes, v)
    ensures r.0 == Ok || r.0 == NullPtr
    ensures r.0 == Ok <==> v.At? && out.Slot?
    ensures r.0 != Ok ==> r.1 == out
    ensures r.0 == Ok ==> r.1 == Slot(if nodes[v.index].payload.DeviceValue? then TYPE_STRUCTURE else nodes[v.index].valType)
    ensures r.0 == Ok ==> IsStructureLike(nodes[v.index].valType) == (r.1.content == TYPE_STRUCTURE)
  {
    if v.At? && out.Slot? then
      TagFacts(nodes, v.index);
      (Ok, Slot(0xFFFF & nodes[v.index].valType))
    else
      (NullPtr, out)
  }

  /** value_get_size: the node's value_size. */
  function GetSize(nodes: seq<Node>, v: Ref, out: Slot<u32>): (r: (ValStatus, Slot<u32>))
    requires ValidRef(nodes, v)
    ensures r.0 == Ok || r.0 == NullPtr
    ensures r.0 == Ok <==> v.At? && out.Slot?
    ensures r.0 != Ok ==> r.1 == out
    ensures r.0 == Ok ==> r.1 == Slot(nodes[v.index].valueSize)
  {
    if v.At? && out.Slot? then (Ok, Slot(nodes[v.index].valueSize)) else (NullPtr, out)
  }

  /**
    DECODE and the four get_value wrappers (bool, uint, int, float). The
    caller must hand in a node of the wrapper's kind, the C code casts
    without checking, and a variable of that kind's C type. Only the decoder
    writes the caller's variable.
   */
  function GetValue(nodes: seq<Node>, kind: ScalarKind, v: Ref, out: Slot<Scalar>): (r: (ValStatus, Slot<Scalar>))
    requires WellFormed(nodes) && ValidRef(nodes, v)
    requires v.At? ==> ScalarKindOf(nodes[v.index]) == Some(kind)
    requires out.Slot? ==> KindOfScalar(out.content) == kind
    ensures v.Null? || out.NoSlot? ==> r == (NullPtr, out)
    ensures v.At? && out.Slot? && nodes[v.index].payload.codec.decoder.None? ==> r == (NotImplemented, out)
    ensures r.0 == Ok ==> v.At? && out.Slot? && nodes[v.index].payload.codec.decoder.Some?
    ensures r.1 != out ==> v.At? && out.Slot? && nodes[v.index].payload.codec.decoder.Some?
    ensures r.1.Slot? <==> out.Slot?
    ensures r.1.Slot? ==> KindOfScalar(r.1.content) == kind
    ensures v.At? && out.Slot? && nodes[v.index].payload.codec.decoder.Some? ==>
      var (status, written) := nodes[v.index].payload.codec.decoder.value(out.content);
      r == (status, Slot(written))
  {
    if v.At? && out.Slot? then
      match nodes[v.index].payload.codec.decoder
      case Some(decode) =>
        assert NodeWellFormed(nodes, v.index);
        var (status, written) := decode(out.content);
        (status, Slot(written))
      case None => (NotImplemented, out)
    else
      (NullPtr, out)
  }

  /** value_array_get_element_type: only a node typed exactly ARRAY has an element type. */
  function ArrayGetElementType(nodes: seq<Node>, v: Ref, out: Slot<bv32>): (r: (ValStatus, Slot<bv32>))
    requires WellFormed(nodes) && ValidRef(nodes, v)
    ensures r.0 == NullPtr <==> v.Null? || out.NoSlot?
    ensures r.0 == TypeMismatch <==> v.At? && out.Slot? && !nodes[v.index].payload.ArrayValue?
    ensures r.0 == Ok <==> v.At? && out.Slot? && nodes[v.index].payload.ArrayValue?
    ensures r.0 == Ok ==> r.1 == Slot(nodes[v.index].payload.elementType)
    ensures r.0 != Ok ==> r.1 == out
  {
    if v.At? && out.Slot? then
      TagFacts(nodes, v.index);
      if nodes[v.index].valType == TYPE_ARRAY then
        (Ok, Slot(nodes[v.index].payload.elementType))
      else
        (TypeMismatch, out)
    else
      (NullPtr, out)
  }

  /**
    value_array_get_element: element `index` of an array. The element handed
    out is one of the array's children.
   */
  function ArrayGetElement(nodes: seq<Node>, v: Ref, index: u32, out: Slot<Ref>): (r: (ValStatus, Slot<Ref>))
    requires WellFormed(nodes) && ValidRef(nodes, v)
    ensures r.0 == NullPtr <==> v.Null? || out.NoSlot?
    ensures r.0 == TypeMismatch <==> v.At? && out.Slot? && !nodes[v.index].payload.ArrayValue?
    ensures r.0 == OutOfBounds <==>
      v.At? && out.Slot? && nodes[v.index].payload.ArrayValue? && index >= |nodes[v.index].payload.elements|
    ensures r.0 == Ok <==>
      v.At? && out.Slot? && nodes[v.index].payload.ArrayValue? && index < |nodes[v.index].payload.elements|
    ensures r.0 == Ok ==> r.1 == Slot(nodes[v.index].payload.elements[index])
    ensures r.0 == Ok ==> ValidRef(nodes, r.1.content) && (r.1.content.At? ==> IsKid(nodes, v.index, r.1.content.index))
    ensures r.0 != Ok ==> r.1 == out
  {
    if v.At? && out.Slot? then
      TagFacts(nodes, v.index);
      if nodes[v.index].valType == TYPE_ARRAY then
        var elements := nodes[v.index].payload.elements;
        if index < |elements| then
          assert NodeWellFormed(nodes, v.index);
          assert Kids(nodes[v.index])[index] == elements[index];
          (Ok, Slot(elements[index]))
        else
          (OutOfBounds, out)
      else
        (TypeMismatch, out)
    else
      (NullPtr, out)
  }

  /** value_structure_get_name: the name of a structure or device. */
  function StructureGetName(nodes: seq<Node>, v: Ref, out: Slot<string>): (r: (ValStatus, Slot<string>))
    requires WellFormed(nodes) && ValidRef(nodes, v)
    ensures r.0 == NullPtr <==> v.Null? || out.NoSlot?
    ensures r.0 == TypeMismatch <==> v.At? && out.Slot? && !IsStructureLike(nodes[v.index].valType)
    ensures r.0 == Ok <==>
      v.At? && out.Slot? && (nodes[v.index].payload.StructureValue? || nodes[v.index].payload.DeviceValue?)
    ensures r.0 == Ok ==> r.1 == Slot(nodes[v.index].payload.name)
    ensures r.0 != Ok ==> r.1 == out
  {
    if v.At? && out.Slot? then
      TagFacts(nodes, v.index);
      if IsStructureLike(nodes[v.index].valType) then
        (Ok, Slot(nodes[v.index].payload.name))
      else
        (TypeMismatch, out)
    else
      (NullPtr, out)
  }

  /** value_structure_get_num_fields: the field count of a structure or device. */
  function StructureGetNumFields(nodes: seq<Node>, v: Ref, out: Slot<nat>): (r: (ValStatus, Slot<nat>))
    requires WellFormed(nodes) && ValidRef(nodes, v)
    ensures r.0 == NullPtr <==> v.Null? || out.NoSlot?
    ensures r.0 == TypeMismatch <==> v.At? && out.Slot? && !IsStructureLike(nodes[v.index].valType)
    ensures r.0 == Ok <==>
      v.At? && out.Slot? && (nodes[v.index].payload.StructureValue? || nodes[v.index].payload.DeviceValue?)
    ensures r.0 == Ok ==> r.1 == Slot(|FieldsOf(nodes[v.index])|)
    ensures r.0 != Ok ==> r.1 == out
  {
    if v.At? && out.Slot? then
      TagFacts(nodes, v.index);
      if IsStructureLike(nodes[v.index].valType) then
        (Ok, Slot(|nodes[v.index].payload.fields|))
      else
        (TypeMismatch, out)
    else
      (NullPtr, out)
  }

  /** value_structure_get_field_name: the name of field `index`. */
  function StructureGetFieldName(nodes: seq<Node>, v: Ref, index: u32, out: Slot<string>): (r: (ValStatus, Slot<string>))
    requires WellFormed(nodes) && ValidRef(nodes, v)
    ensures r.0 == NullPtr <==> v.Null? || out.NoSlot?
    ensures r.0 == TypeMismatch <==> v.At? && out.Slot? && !IsStructureLike(nodes[v.index].valType)
    ensures r.0 == OutOfBounds <==>
      v.At? && out.Slot? && IsStructureLike(nodes[v.index].valType) && index >= |FieldsOf(nodes[v.index])|
    ensures r.0 == Ok <==>
      v.At? && out.Slot? && IsStructureLike(nodes[v.index].valType) && index < |FieldsOf(nodes[v.index])|
    ensures r.0 == Ok ==> r.1 == Slot(FieldsOf(nodes[v.index])[index].name)
    ensures r.0 != Ok ==> r.1 == out
  {
    if v.At? && out.Slot? then
      TagFacts(nodes, v.index);
      if IsStructureLike(nodes[v.index].valType) then
        var fields := nodes[v.index].payload.fields;
        if index < |fields| then (Ok, Slot(fields[index].name)) else (OutOfBounds, out)
      else
        (TypeMismatch, out)
    else
      (NullPtr, out)
  }

  /** value_structure_get_field_by_index: the value of field `index`, one of the node's children. */
  function StructureGetFieldByIndex(nodes: seq<Node>, v: Ref, index: u32, out: Slot<Ref>): (r: (ValStatus, Slot<Ref>))
    requires WellFormed(nodes) && ValidRef(nodes, v)
    ensures r.0 == NullPtr <==> v.Null? || out.NoSlot?
    ensures r.0 == TypeMismatch <==> v.At? && out.Slot? && !IsStructureLike(nodes[v.index].valType)
    ensures r.0 == OutOfBounds <==>
      v.At? && out.Slot? && IsStructureLike(nodes[v.index].valType) && index >= |FieldsOf(nodes[v.index])|
    ensures r.0 == Ok <==>
      v.At? && out.Slot? && IsStructureLike(nodes[v.index].valType) && index < |FieldsOf(nodes[v.index])|
    ensures r.0 == Ok ==> r.1 == Slot(FieldsOf(nodes[v.index])[index].value)
    ensures r.0 == Ok ==> ValidRef(nodes, r.1.content) && (r.1.content.At? ==> IsKid(nodes, v.index, r.1.content.index))
    ensures r.0 != Ok ==> r.1 == out
  {
    if v.At? && out.Slot? then
      TagFacts(nodes, v.index);
      if IsStructureLike(nodes[v.index].valType) then
        var fields := nodes[v.index].payload.fields;
        if index < |fields| then
          assert NodeWellFormed(nodes, v.index);
          assert Kids(nodes[v.index])[index] == fields[index].value;
          (Ok, Slot(fields[index].value))
        else
          (OutOfBounds, out)
      else
        (TypeMismatch, out)
    else
      (NullPtr, out)
  }

  /** The lowest index at or after `from` of a field called `key`, if there is one. */
  function FirstField(fields: seq<Field>, key: string, from: nat): (r: Option<nat>)
    requires from <= |fields|
    ensures r.Some? ==> from <= r.value < |fields| && fields[r.value].name == key
    ensures r.Some? ==> forall j :: from <= j < r.value ==> fields[j].name != key
    ensures r.None? ==> forall j :: from <= j < |fields| ==> fields[j].name != key
    decreases |fields| - from
  {
    if from == |fields| then None
    else if fields[from].name == key then Some(from)
    else FirstField(fields, key, from + 1)
  }

  /**
    value_structure_get_field_by_name: a linear search that stops at the
    first field whose name equals the key; NOT_FOUND leaves the caller's
    variable as it was.
   */
  method StructureGetFieldByName(nodes: seq<Node>, v: Ref, key: Option<string>, out: Slot<Ref>)
    returns (rc: ValStatus, out': Slot<Ref>)
    requires WellFormed(nodes) && ValidRef(nodes, v)
    ensures rc == NullPtr <==> v.Null? || key.None? || out.NoSlot?
    ensures rc == TypeMismatch <==> v.At? && key.Some? && out.Slot? && !IsStructureLike(nodes[v.index].valType)
    ensures rc in {Ok, NotFound, NullPtr, TypeMismatch}
    ensures rc == Ok <==>
      v.At? && key.Some? && out.Slot? && IsStructureLike(nodes[v.index].valType)
      && FirstField(FieldsOf(nodes[v.index]), key.value, 0).Some?
    ensures rc == Ok ==>
      out' == Slot(FieldsOf(nodes[v.index])[FirstField(FieldsOf(nodes[v.index]), key.value, 0).value].value)
    ensures rc != Ok ==> out' == out
  {
    out' := out;
    if v.At? && key.Some? && out.Slot? {
      TagFacts(nodes, v.index);
      if IsStructureLike(nodes[v.index].valType) {
        var fields := nodes[v.index].payload.fields;
        rc := NotFound;
        var i := 0;
        while i < |fields|
          invariant 0 <= i <= |fields|
          invariant FirstField(fields, key.value, 0) == FirstField(fields, key.value, i)
          invariant rc == NotFound && out' == out
        {
          if fields[i].name == key.value {
            out' := Slot(fields[i].value);
            rc := Ok;
            break;
          }
          i := i + 1;
        }
      } else {
        rc := TypeMismatch;
      }
    } else {
      rc := NullPtr;
    }
  }

  /**
    Looking a field up by the name get_field_name reports for index i finds
    field i, or an earlier field of the same name; with distinct names,
    exactly field i.
   */
  lemma {:induction false} NameLookupFindsField(fields: seq<Field>, i: nat)
    requires i < |fields|
    ensures FirstField(fields, fields[i].name, 0).Some?
    ensures FirstField(fields, fields[i].name, 0).value <= i
    ensures (forall j, l :: 0 <= j < l < |fields| ==> fields[j].name != fields[l].name) ==>
      FirstField(fields, fields[i].name, 0) == Some(i)
  {
  }
}
