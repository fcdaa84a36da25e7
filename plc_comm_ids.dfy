/**
  The integer encodings of the public header src/lib/include/plc_comm.h:
  status codes, self-describing attribute identifiers and kind-tagged handles.
  All three share the C type int32_t, so they are modelled as 32-bit vectors
  and read as signed integers through Words.Int32.
 */
module PlcComm {
  import opened Wrappers
  import opened Words

  // ---------------------------------------------------------------------------
  // plc_comm_status_t
  // ---------------------------------------------------------------------------

  datatype CommStatus =
    | Illegal
    | Ok | Pending | Timeout | Partial
    | ErrOutOfBounds | ErrNotFound | ErrNoResources | ErrNotSupported
  {
    /** The enum value; every status is zero or negative, and only ILLEGAL is zero. */
    function Code(): (c: int)
      ensures c <= 0
      ensures c == 0 <==> this == Illegal
      ensures c == -1 <==> this == Ok
    {
      match this
      case Illegal => 0
      case Ok => -1
      case Pending => -2
      case Timeout => -3
      case Partial => -4
      case ErrOutOfBounds => -100
      case ErrNotFound => -101
      case ErrNoResources => -102
      case ErrNotSupported => -103
    }

    /** The 32-bit word an int32_t holding Code() consists of. */
    function Word(): (w: bv32)
      ensures !IsPositiveInt32(w)
    {
      match this
      case Illegal => 0
      case Ok => 0xFFFF_FFFF
      case Pending => 0xFFFF_FFFE
      case Timeout => 0xFFFF_FFFD
      case Partial => 0xFFFF_FFFC
      case ErrOutOfBounds => 0xFFFF_FF9C
      case ErrNotFound => 0xFFFF_FF9B
      case ErrNoResources => 0xFFFF_FF9A
      case ErrNotSupported => 0xFFFF_FF99
    }
  }

  /** The word of each status reads back as its code. */
  lemma StatusWordIsCode(s: CommStatus)
    ensures Int32(s.Word()) == s.Code()
  {
  }

  /** Reads an int32_t word as a status; None for words that are not a declared status. */
  function StatusOf(w: bv32): (r: Option<CommStatus>)
    ensures r.Some? ==> r.value.Word() == w
    ensures r.None? ==> forall s: CommStatus :: s.Word() != w
    ensures IsPositiveInt32(w) ==> r.None?
  {
    if w == 0 then Some(Illegal)
    else if w == 0xFFFF_FFFF then Some(Ok)
    else if w == 0xFFFF_FFFE then Some(Pending)
    else if w == 0xFFFF_FFFD then Some(Timeout)
    else if w == 0xFFFF_FFFC then Some(Partial)
    else if w == 0xFFFF_FF9C then Some(ErrOutOfBounds)
    else if w == 0xFFFF_FF9B then Some(ErrNotFound)
    else if w == 0xFFFF_FF9A then Some(ErrNoResources)
    else if w == 0xFFFF_FF99 then Some(ErrNotSupported)
    else None
  }

  /** The status codes are pairwise distinct: reading a status's word back gives that status. */
  lemma StatusRoundTrip(s: CommStatus)
    ensures StatusOf(s.Word()) == Some(s)
  {
  }

  lemma StatusCodesDistinct(a: CommStatus, b: CommStatus)
    ensures a.Code() == b.Code() ==> a == b
  {
  }

  // ---------------------------------------------------------------------------
  // plc_comm_attr_base_t: attribute id = (id << 8) | type | access
  // ---------------------------------------------------------------------------

  const ATTR_ID_SHIFT: bv32 := 8

  const ATTR_TYPE_MASK: bv32 := 0x0F
  const ATTR_TYPE_BUF: bv32 := 0x01
  const ATTR_TYPE_INT: bv32 := 0x02
  const ATTR_TYPE_PTR: bv32 := 0x03
  const ATTR_TYPE_FUNC: bv32 := 0x04

  const ATTR_ACCESS_MASK: bv32 := 0xF0
  const ATTR_ACCESS_READ: bv32 := 0x10
  const ATTR_ACCESS_DUMMY_READ: bv32 := 0x20
  const ATTR_ACCESS_WRITE: bv32 := 0x30

  /** A type tag: one of the sixteen values of the low nibble (0x05..0x0F are reserved). */
  predicate IsAttrType(t: bv32) {
    t & ATTR_TYPE_MASK == t
  }

  /** An access tag: one of the sixteen values of the second nibble (0x40..0xF0 are reserved). */
  predicate IsAttrAccess(a: bv32) {
    a & ATTR_ACCESS_MASK == a
  }

  /**
    The bound on an attribute's number: the ids are int enum constants, so
    `id << ATTR_ID_SHIFT` must stay clear of the sign bit of a 32-bit int.
   */
  const ATTR_NUM_LIMIT: bv32 := 0x0080_0000

  function AttrType(attr: bv32): (t: bv32)
    ensures IsAttrType(t)
  {
    attr & ATTR_TYPE_MASK
  }

  function AttrAccess(attr: bv32): (a: bv32)
    ensures IsAttrAccess(a)
  {
    attr & ATTR_ACCESS_MASK
  }

  function AttrNum(attr: bv32): (id: bv32)
    ensures id < 0x0100_0000
    ensures attr < 0x8000_0000 ==> id < ATTR_NUM_LIMIT
  {
    attr >> 8  // ATTR_ID_SHIFT
  }

  /**
    Composes an attribute id. The type and the access tag occupy disjoint
    nibbles and the number sits above them, so all three come back out.
   */
  function AttrId(id: bv32, t: bv32, access: bv32): (attr: bv32)
    requires id < ATTR_NUM_LIMIT && IsAttrType(t) && IsAttrAccess(access)
    ensures AttrNum(attr) == id
    ensures AttrType(attr) == t
    ensures AttrAccess(attr) == access
    ensures attr < 0x8000_0000
  {
    (id << 8) | t | access  // id << ATTR_ID_SHIFT
  }

  /** Every non-negative int32_t word is the attribute id of its own three parts. */
  lemma AttrDecomposes(attr: bv32)
    requires attr < 0x8000_0000
    ensures AttrId(AttrNum(attr), AttrType(attr), AttrAccess(attr)) == attr
  {
  }

  /** Two attribute ids are equal exactly when their three parts are. */
  lemma AttrIdInjective(id1: bv32, t1: bv32, a1: bv32, id2: bv32, t2: bv32, a2: bv32)
    requires id1 < ATTR_NUM_LIMIT && IsAttrType(t1) && IsAttrAccess(a1)
    requires id2 < ATTR_NUM_LIMIT && IsAttrType(t2) && IsAttrAccess(a2)
    ensures AttrId(id1, t1, a1) == AttrId(id2, t2, a2) <==> id1 == id2 && t1 == t2 && a1 == a2
  {
    var x, y := AttrId(id1, t1, a1), AttrId(id2, t2, a2);
    assert x == y ==> AttrNum(x) == AttrNum(y) && AttrType(x) == AttrType(y) && AttrAccess(x) == AttrAccess(y);
  }

  /**
    An access tag is a nibble value, not a set of flags: an attribute grants
    `access` only when its masked access nibble equals it.
   */
  predicate HasAccess(attr: bv32, access: bv32) {
    AttrAccess(attr) == access
  }

  /**
    WRITE (0x30) is READ | DUMMY_READ, so a flag test would take every
    writable attribute for a readable one; the equality test does not.
   */
  lemma AccessIsNotAFlagSet(id: bv32, t: bv32)
    requires id < ATTR_NUM_LIMIT && IsAttrType(t)
    ensures ATTR_ACCESS_WRITE == ATTR_ACCESS_READ | ATTR_ACCESS_DUMMY_READ
    ensures AttrId(id, t, ATTR_ACCESS_WRITE) & ATTR_ACCESS_READ != 0
    ensures AttrId(id, t, ATTR_ACCESS_WRITE) & ATTR_ACCESS_DUMMY_READ != 0
    ensures !HasAccess(AttrId(id, t, ATTR_ACCESS_WRITE), ATTR_ACCESS_READ)
    ensures !HasAccess(AttrId(id, t, ATTR_ACCESS_WRITE), ATTR_ACCESS_DUMMY_READ)
    ensures HasAccess(AttrId(id, t, ATTR_ACCESS_WRITE), ATTR_ACCESS_WRITE)
  {
  }

  // The attributes the header declares for results and result batches, as
  // the values their defining expressions (1 << 8) | INT | READ and
  // (2 << 8) | PTR | READ evaluate to; DeclaredAttributesDecode checks them.
  const ATTR_RESULT_BATCH_RESULT_COUNT: bv32 := 0x112
  const ATTR_RESULT_TRANSLATED_ELEMENT_COUNT: bv32 := 0x112
  const ATTR_RESULT_TRANSLATED_ELEMENT_DATA: bv32 := 0x213

  /**
    The declared attributes decode to (1, INT, READ), (1, INT, READ) and
    (2, PTR, READ). The two counts are the same integer: only the object they
    are applied to tells them apart.
   */
  lemma DeclaredAttributesDecode()
    ensures ATTR_RESULT_BATCH_RESULT_COUNT == AttrId(1, ATTR_TYPE_INT, ATTR_ACCESS_READ)
    ensures ATTR_RESULT_TRANSLATED_ELEMENT_COUNT == AttrId(1, ATTR_TYPE_INT, ATTR_ACCESS_READ)
    ensures ATTR_RESULT_TRANSLATED_ELEMENT_DATA == AttrId(2, ATTR_TYPE_PTR, ATTR_ACCESS_READ)
    ensures AttrNum(ATTR_RESULT_BATCH_RESULT_COUNT) == 1
    ensures AttrType(ATTR_RESULT_BATCH_RESULT_COUNT) == ATTR_TYPE_INT
    ensures HasAccess(ATTR_RESULT_BATCH_RESULT_COUNT, ATTR_ACCESS_READ)
    ensures AttrNum(ATTR_RESULT_TRANSLATED_ELEMENT_COUNT) == 1
    ensures AttrType(ATTR_RESULT_TRANSLATED_ELEMENT_COUNT) == ATTR_TYPE_INT
    ensures HasAccess(ATTR_RESULT_TRANSLATED_ELEMENT_COUNT, ATTR_ACCESS_READ)
    ensures AttrNum(ATTR_RESULT_TRANSLATED_ELEMENT_DATA) == 2
    ensures AttrType(ATTR_RESULT_TRANSLATED_ELEMENT_DATA) == ATTR_TYPE_PTR
    ensures HasAccess(ATTR_RESULT_TRANSLATED_ELEMENT_DATA, ATTR_ACCESS_READ)
    ensures ATTR_RESULT_BATCH_RESULT_COUNT == ATTR_RESULT_TRANSLATED_ELEMENT_COUNT
  {
    assert ATTR_RESULT_BATCH_RESULT_COUNT == AttrId(1, ATTR_TYPE_INT, ATTR_ACCESS_READ);
    assert ATTR_RESULT_TRANSLATED_ELEMENT_DATA == AttrId(2, ATTR_TYPE_PTR, ATTR_ACCESS_READ);
  }

  // ---------------------------------------------------------------------------
  // plc_comm_id_type_t: handle = (serial << 4) | kind
  // ---------------------------------------------------------------------------

  const ID_TYPE_MASK: bv32 := 0x0F
  const ID_SHIFT: bv32 := 4
  const ID_MIN: bv32 := 0x0000_0001
  const ID_MAX: bv32 := 0x07FF_FFFF

  const ID_CONN_TYPE: bv32 := 0x01
  const ID_RESULT_BATCH_TYPE: bv32 := 0x02
  const ID_CONFIG_TYPE: bv32 := 0x03
  const ID_REQUEST_BATCH_TYPE: bv32 := 0x04

  /** The object kinds the header names. */
  datatype IdKind = Connection | ResultBatch | Config | RequestBatch
  {
    function Tag(): (tag: bv32)
      ensures ID_CONN_TYPE <= tag <= ID_REQUEST_BATCH_TYPE
    {
      match this
      case Connection => ID_CONN_TYPE
      case ResultBatch => ID_RESULT_BATCH_TYPE
      case Config => ID_CONFIG_TYPE
      case RequestBatch => ID_REQUEST_BATCH_TYPE
    }
  }

  /** The kind bits of a handle: id & PLC_COMM_ID_TYPE_MASK. */
  function IdTypeOf(id: bv32): (tag: bv32)
    ensures tag <= ID_TYPE_MASK
  {
    id & ID_TYPE_MASK
  }

  function IdSerial(id: bv32): bv32 {
    id >> 4  // ID_SHIFT
  }

  /** The declared kind a handle's kind bits name, if any. */
  function KindOfId(id: bv32): (k: Option<IdKind>)
    ensures k.Some? <==> ID_CONN_TYPE <= IdTypeOf(id) <= ID_REQUEST_BATCH_TYPE
    ensures k.Some? ==> k.value.Tag() == IdTypeOf(id)
  {
    var tag := IdTypeOf(id);
    if tag == ID_CONN_TYPE then Some(Connection)
    else if tag == ID_RESULT_BATCH_TYPE then Some(ResultBatch)
    else if tag == ID_CONFIG_TYPE then Some(Config)
    else if tag == ID_REQUEST_BATCH_TYPE then Some(RequestBatch)
    else None
  }

  /** A handle that names an allocated object: its serial lies in [ID_MIN, ID_MAX]. */
  predicate IsAllocatedId(id: bv32) {
    ID_MIN <= IdSerial(id) <= ID_MAX
  }

  /**
    Composes a handle from a serial in [ID_MIN, ID_MAX] and a kind nibble.
    The result is a positive int32_t no larger than 0x7FFFFFFF, so it can
    never be mistaken for a status code, all of which are zero or negative.
   */
  function MakeId(serial: bv32, tag: bv32): (id: bv32)
    requires ID_MIN <= serial <= ID_MAX && tag <= ID_TYPE_MASK
    ensures IdSerial(id) == serial && IdTypeOf(id) == tag
    ensures IsAllocatedId(id)
    ensures IsPositiveInt32(id)
  {
    (serial << 4) | tag  // serial << ID_SHIFT
  }

  /** The kind a handle was made with is the kind read back from it. */
  lemma HandleKindRoundTrip(serial: bv32, k: IdKind)
    requires ID_MIN <= serial <= ID_MAX
    ensures KindOfId(MakeId(serial, k.Tag())) == Some(k)
  {
  }

  /** Handles and status codes occupy disjoint int32_t ranges. */
  lemma HandleIsNeverAStatus(serial: bv32, tag: bv32)
    requires ID_MIN <= serial <= ID_MAX && tag <= ID_TYPE_MASK
    ensures StatusOf(MakeId(serial, tag)) == None
  {
  }

  // plc_comm_null_id_t: each null id is the bare kind tag.
  const CONN_NULL_ID: bv32 := ID_CONN_TYPE
  const RESULT_BATCH_NULL_ID: bv32 := ID_RESULT_BATCH_TYPE
  const CONFIG_NULL_ID: bv32 := ID_CONFIG_TYPE
  const REQUEST_BATCH_NULL_ID: bv32 := ID_REQUEST_BATCH_TYPE

  /**
    The null id of a kind carries that kind's bits with serial 0, below
    ID_MIN, so it is recognisably typed but never an allocated handle.
   */
  function NullId(k: IdKind): (id: bv32)
    ensures KindOfId(id) == Some(k)
    ensures IdSerial(id) == 0 && !IsAllocatedId(id)
    ensures IsPositiveInt32(id) && StatusOf(id) == None
  {
    match k
    case Connection => CONN_NULL_ID
    case ResultBatch => RESULT_BATCH_NULL_ID
    case Config => CONFIG_NULL_ID
    case RequestBatch => REQUEST_BATCH_NULL_ID
  }
}
