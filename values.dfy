/**
  The value tree's data model (src/plc_comm.h and the node structs of
  src/lib/plc_comm.c). Nodes live in an arena: a sequence indexed by node
  number, where a C pointer to a node becomes `At(i)` and NULL becomes `Null`.
  The arena is numbered so that a node's children come after it and its
  parent before it, which is what makes the tree acyclic.
 */
module Values {
  import opened Wrappers

  /** value_status_t, in declaration order. */
  datatype ValStatus =
    | Ok
    | TypeMismatch
    | NotFound
    | Busy
    | NullPtr
    | NotImplemented
    | OutOfBounds
    | DirtyCountCorrupt

  // value_type_t, in declaration order.
  const TYPE_BOOL: bv32 := 0
  const TYPE_U8: bv32 := 1
  const TYPE_U16: bv32 := 2
  const TYPE_U32: bv32 := 3
  const TYPE_U64: bv32 := 4
  const TYPE_I8: bv32 := 5
  const TYPE_I16: bv32 := 6
  const TYPE_I32: bv32 := 7
  const TYPE_I64: bv32 := 8
  const TYPE_F32: bv32 := 9
  const TYPE_F64: bv32 := 10
  const TYPE_STR: bv32 := 11
  const TYPE_ARRAY: bv32 := 12
  const TYPE_STRUCTURE: bv32 := 13

  /** A device root is a structure whose type carries an extra 0x10000 above the low 16 bits. */
  const TYPE_DEVICE: bv32 := 0x1_0000 + TYPE_STRUCTURE

  /** Capacity of the traversal stack that the dirty search fills. */
  const VALUE_STACK_DEPTH: nat := 50

  type u8 = x: int | 0 <= x < 0x100
  type u32 = x: int | 0 <= x < 0x1_0000_0000
  type u64 = x: int | 0 <= x < 0x1_0000_0000_0000_0000
  type i64 = x: int | -0x8000_0000_0000_0000 <= x < 0x8000_0000_0000_0000

  /** A pointer to a node of the arena, or NULL. */
  datatype Ref = Null | At(index: nat)

  /**
    A caller's out-pointer: NoSlot is a NULL pointer, Slot(x) points at a
    variable that currently holds x. Accessors hand back the slot as they
    leave it.
   */
  datatype Slot<+T> = NoSlot | Slot(content: T)

  datatype Field = Field(name: string, value: Ref)

  /** A value passed to or from a scalar encoder or decoder; a double is kept as its 64 bits. */
  datatype Scalar =
    | BoolScalar(b: bool)
    | UIntScalar(u: u64)
    | IntScalar(i: i64)
    | FloatScalar(bits: bv64)

  datatype ScalarKind = BoolKind | UIntKind | IntKind | FloatKind

  function KindOfScalar(x: Scalar): ScalarKind {
    match x
    case BoolScalar(_) => BoolKind
    case UIntScalar(_) => UIntKind
    case IntScalar(_) => IntKind
    case FloatScalar(_) => FloatKind
  }

  /**
    The injected encoder and decoder of a scalar node; either may be missing
    (a NULL function pointer). The encoder answers with a status; the decoder
    is given what the caller's variable holds and answers with a status and
    what the variable holds afterwards.
   */
  datatype Codec = Codec(
    encoder: Option<Scalar -> ValStatus>,
    decoder: Option<Scalar -> (ValStatus, Scalar)>)

  /** What each concrete node struct adds to value_base. */
  datatype Payload =
    | BoolValue(bit: u8, codec: Codec)
    | UIntValue(codec: Codec)
    | IntValue(codec: Codec)
    | FloatValue(codec: Codec)
    | ArrayValue(elementType: bv32, elements: seq<Ref>)
    | StructureValue(name: string, fields: seq<Field>)
    | DeviceValue(name: string, fields: seq<Field>, deviceRawTag: int)

  /** value_base (without the dirty flag, which the arena keeps) and its payload. */
  datatype Node = Node(valType: bv32, parent: Ref, valueSize: u32, index: u32, payload: Payload)

  function ScalarKindOf(n: Node): Option<ScalarKind> {
    match n.payload
    case BoolValue(_, _) => Some(BoolKind)
    case UIntValue(_) => Some(UIntKind)
    case IntValue(_) => Some(IntKind)
    case FloatValue(_) => Some(FloatKind)
    case _ => None
  }

  /** The type tag agrees with the struct behind it, as the casts in the accessors assume. */
  predicate TypeMatchesPayload(n: Node) {
    match n.payload
    case BoolValue(_, _) => n.valType == TYPE_BOOL
    case UIntValue(_) => TYPE_U8 <= n.valType <= TYPE_U64
    case IntValue(_) => TYPE_I8 <= n.valType <= TYPE_I64
    case FloatValue(_) => n.valType == TYPE_F32 || n.valType == TYPE_F64
    case ArrayValue(_, _) => n.valType == TYPE_ARRAY
    case StructureValue(_, _) => n.valType == TYPE_STRUCTURE
    case DeviceValue(_, _, _) => n.valType == TYPE_DEVICE
  }

  function FieldValues(fields: seq<Field>): (vs: seq<Ref>)
    ensures |vs| == |fields|
    ensures forall i :: 0 <= i < |fields| ==> vs[i] == fields[i].value
  {
    seq(|fields|, i requires 0 <= i < |fields| => fields[i].value)
  }

  /** The child pointers of a node: an array's elements, a structure's (or device's) field values. */
  function Kids(n: Node): seq<Ref> {
    match n.payload
    case ArrayValue(_, elements) => elements
    case StructureValue(_, fields) => FieldValues(fields)
    case DeviceValue(_, fields, _) => FieldValues(fields)
    case _ => []
  }

  /**
    The two tree walks (clear_dirty, find_first_dirty) descend into a node
    only when its type is exactly ARRAY or exactly STRUCTURE, so they do not
    descend into a device.
   */
  predicate Descended(valType: bv32) {
    valType == TYPE_ARRAY || valType == TYPE_STRUCTURE
  }

  /** Structure accessors mask the type to 16 bits, so they accept devices too. */
  predicate IsStructureLike(valType: bv32) {
    valType & 0xFFFF == TYPE_STRUCTURE
  }

  predicate ValidRef(nodes: seq<Node>, r: Ref) {
    r.At? ==> r.index < |nodes|
  }

  /**
    A scalar node's decoder writes through a pointer of the node's own C
    type: given a value of the node's kind it answers a value of that kind.
   */
  ghost predicate DecoderKeepsKind(n: Node) {
    match ScalarKindOf(n)
    case Some(kind) =>
      n.payload.codec.decoder.Some? ==>
        forall x :: KindOfScalar(x) == kind ==> KindOfScalar(n.payload.codec.decoder.value(x).1) == kind
    case None => true
  }

  /** Node i is well formed: its tag matches its struct, its parent comes before it and its children after it. */
  ghost predicate NodeWellFormed(nodes: seq<Node>, i: nat)
    requires i < |nodes|
  {
    && TypeMatchesPayload(nodes[i])
    && DecoderKeepsKind(nodes[i])
    && (nodes[i].parent.At? ==> nodes[i].parent.index < i)
    && forall j :: 0 <= j < |Kids(nodes[i])| ==> Kids(nodes[i])[j].At? ==> i < Kids(nodes[i])[j].index < |nodes|
  }

  ghost predicate WellFormed(nodes: seq<Node>) {
    forall i :: 0 <= i < |nodes| ==> NodeWellFormed(nodes, i)
  }

  /** Whether c is one of the children of node p, in any position. */
  predicate IsKid(nodes: seq<Node>, p: nat, c: nat)
    requires p < |nodes|
  {
    At(c) in Kids(nodes[p])
  }

  /** The fields of a structure or device; other nodes have none. */
  function FieldsOf(n: Node): seq<Field> {
    match n.payload
    case StructureValue(_, fields) => fields
    case DeviceValue(_, fields, _) => fields
    case _ => []
  }

  /** What the type tag of a well-formed node says about the struct behind it. */
  lemma TagFacts(nodes: seq<Node>, i: nat)
    requires WellFormed(nodes) && i < |nodes|
    ensures nodes[i].valType == TYPE_ARRAY <==> nodes[i].payload.ArrayValue?
    ensures nodes[i].valType == TYPE_STRUCTURE <==> nodes[i].payload.StructureValue?
    ensures nodes[i].valType == TYPE_DEVICE <==> nodes[i].payload.DeviceValue?
    ensures IsStructureLike(nodes[i].valType) <==> nodes[i].payload.StructureValue? || nodes[i].payload.DeviceValue?
    ensures nodes[i].valType & 0xFFFF == if nodes[i].payload.DeviceValue? then TYPE_STRUCTURE else nodes[i].valType
  {
    assert NodeWellFormed(nodes, i);
  }

  /** The parent pointer of node i, which comes before it. */
  function ParentOf(nodes: seq<Node>, i: nat): (p: Ref)
    requires WellFormed(nodes) && i < |nodes|
    ensures p == nodes[i].parent
    ensures ValidRef(nodes, p) && (p.At? ==> p.index < i)
  {
    assert NodeWellFormed(nodes, i);
    nodes[i].parent
  }
}
