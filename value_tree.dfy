/**
  The value tree of src/lib/plc_comm.c with its dirty flags updated in
  place. The shape (types, parents, children, codecs) never changes once
  built; `dirty[i]` is the `dirty` field of node i.
 */
module ValueTree {
  import opened Wrappers
  import opened Values
  import opened DirtyTracking

  /** The nearest device on the parent chain starting at r (r included), or Null. */
  function DeviceAbove(nodes: seq<Node>, r: Ref): (dev: Ref)
    requires WellFormed(nodes) && ValidRef(nodes, r)
    ensures ValidRef(nodes, dev)
    ensures dev.At? ==> nodes[dev.index].valType == TYPE_DEVICE && dev.index in Chain(nodes, r)
    ensures forall j :: j in Chain(nodes, r) && (dev.Null? || dev.index < j) ==> nodes[j].valType != TYPE_DEVICE
    decreases if r.At? then r.index + 1 else 0
  {
    if r.Null? then Null
    else if nodes[r.index].valType == TYPE_DEVICE then r
    else DeviceAbove(nodes, ParentOf(nodes, r.index))
  }

  /** The indices on the parent chain starting at r; they decrease going up. */
  ghost function Chain(nodes: seq<Node>, r: Ref): (c: set<nat>)
    requires WellFormed(nodes) && ValidRef(nodes, r)
    ensures forall j :: j in c ==> j < |nodes| && r.At? && j <= r.index
    decreases if r.At? then r.index + 1 else 0
  {
    if r.Null? then {}
    else {r.index} + Chain(nodes, ParentOf(nodes, r.index))
  }

  class ValueTree {
    const nodes: seq<Node>
    const dirty: array<bool>

    ghost predicate Valid()
      reads this
    {
      WellFormed(nodes) && dirty.Length == |nodes|
    }

    /** A tree as built: every node clean. */
    constructor (shape: seq<Node>)
      requires WellFormed(shape)
      ensures Valid() && nodes == shape && fresh(dirty)
      ensures forall i :: 0 <= i < dirty.Length ==> !dirty[i]
    {
      nodes := shape;
      dirty := new bool[|shape|](_ => false);
    }

    /** mark_dirty: sets the flag of v alone; its children are left as they are. */
    method MarkDirty(v: Ref) returns (rc: ValStatus)
      requires Valid() && ValidRef(nodes, v)
      modifies dirty
      ensures rc == if v.Null? then NullPtr else Ok
      ensures dirty[..] == if v.Null? then old(dirty[..]) else old(dirty[..])[v.index := true]
    {
      if v.At? {
        dirty[v.index] := true;
        rc := Ok;
      } else {
        rc := NullPtr;
      }
    }

    /**
      ENCODE and the four set_value wrappers: the node's encoder is asked to
      store x; only when it answers OK is the node marked dirty.
     */
    method SetValue(kind: ScalarKind, v: Ref, x: Scalar) returns (rc: ValStatus)
      requires Valid() && ValidRef(nodes, v)
      requires v.At? ==> ScalarKindOf(nodes[v.index]) == Some(kind)
      requires KindOfScalar(x) == kind
      modifies dirty
      ensures v.Null? ==> rc == NullPtr
      ensures v.At? && nodes[v.index].payload.codec.encoder.None? ==> rc == NotImplemented
      ensures v.At? && nodes[v.index].payload.codec.encoder.Some? ==>
        rc == nodes[v.index].payload.codec.encoder.value(x)
      ensures dirty[..] == if rc == Ok then old(dirty[..])[v.index := true] else old(dirty[..])
    {
      if v.At? {
        match nodes[v.index].payload.codec.encoder
        case Some(encode) =>
          rc := encode(x);
          if rc == Ok {
            rc := MarkDirty(v);
          }
        case None =>
          rc := NotImplemented;
      }
      else {
        rc := NullPtr;
      }
    }

    /** clear_dirty, in place: the flags become those Clear computes. */
    method ClearDirty(v: Ref) returns (rc: ValStatus)
      requires Valid() && ValidRef(nodes, v)
      modifies dirty
      ensures (rc, dirty[..]) == Clear(nodes, v, old(dirty[..]))
      decreases if v.At? then |nodes| - v.index else 0, 1
    {
      if v.Null? {
        return NullPtr;
      }
      ghost var d0 := dirty[..];
      dirty[v.index] := false;
      rc := Ok;
      if Descended(nodes[v.index].valType) {
        assert NodeWellFormed(nodes, v.index);
        var kids := Kids(nodes[v.index]);
        var i := 0;
        while i < |kids| && rc == Ok
          invariant 0 <= i <= |kids|
          invariant rc == Ok || rc == NullPtr
          invariant Clear(nodes, v, d0) ==
            if rc == Ok then ClearKids(nodes, v.index, i, dirty[..]) else (rc, dirty[..])
        {
          rc := ClearDirty(kids[i]);
          i := i + 1;
        }
      }
    }

    /**
      find_first_dirty, writing the caller's stack in place. The caller must
      rule out undefined behaviour: no null child on the walk and a stack
      long enough for every slot written.
     */
    method FindFirstDirty(v: Ref, stack: array<Ref>, k: nat) returns (rc: ValStatus)
      requires Valid() && ValidRef(nodes, v)
      requires Find(nodes, v, k, dirty[..], stack[..]).Some?
      modifies stack
      ensures Find(nodes, v, k, dirty[..], old(stack[..])) == Some((rc, stack[..]))
      decreases if v.At? then |nodes| - v.index else 0, 1
    {
      ghost var s0 := stack[..];
      rc := NotFound;
      if !dirty[v.index] {
        if Descended(nodes[v.index].valType) {
          if k < VALUE_STACK_DEPTH {
            assert NodeWellFormed(nodes, v.index);
            var kids := Kids(nodes[v.index]);
            var i := 0;
            while i < |kids| && rc == NotFound
              invariant 0 <= i <= |kids|
              invariant stack.Length == |s0|
              invariant rc in {Ok, NotFound, OutOfBounds}
              invariant FindIn(nodes, v.index, 0, k + 1, dirty[..], s0) ==
                if rc == NotFound then FindIn(nodes, v.index, i, k + 1, dirty[..], stack[..])
                else Some((rc, stack[..]))
            {
              rc := FindFirstDirty(kids[i], stack, k + 1);
              i := i + 1;
            }
          } else {
            rc := OutOfBounds;
          }
        }
      } else {
        rc := Ok;
      }
      stack[k] := if rc == Ok then v else Null;
    }

    /**
      value_sync as the code stands: it climbs from v's parent to the nearest
      device and stops there, answering OK; the search for dirty values is
      not written yet, so no flag changes.
     */
    method Sync(v: Ref) returns (rc: ValStatus, device: Ref)
      requires Valid() && ValidRef(nodes, v)
      ensures rc == Ok
      ensures device == if v.Null? then Null else DeviceAbove(nodes, ParentOf(nodes, v.index))
    {
      rc := Ok;
      device := Null;
      if v.At? {
        var parent := ParentOf(nodes, v.index);
        while parent.At? && nodes[parent.index].valType != TYPE_DEVICE
          invariant ValidRef(nodes, parent)
          invariant DeviceAbove(nodes, parent) == DeviceAbove(nodes, ParentOf(nodes, v.index))
          decreases if parent.At? then parent.index + 1 else 0
        {
          parent := ParentOf(nodes, parent.index);
        }
        device := parent;
      }
    }
 
    /**
      find_first_dirty from v at level 0 on a stack of VALUE_STACK_DEPTH + 1
      slots, so that every slot the walk writes exists. On a tree that fits
      below VALUE_STACK_DEPTH it answers OK exactly when a node of the walk
      is dirty. value_sync would start its search at the device above the
      value instead, and from a device the walk reads nothing but the
      device's own flag (DirtyTracking.DeviceIsNotWalked).
     */
    method SearchDirty(v: Ref) returns (rc: ValStatus, stack: array<Ref>)
      requires Valid() && ValidRef(nodes, v) && Null !in Reach(nodes, v)
      ensures fresh(stack) && stack.Length == VALUE_STACK_DEPTH + 1
      ensures Find(nodes, v, 0, dirty[..], seq(VALUE_STACK_DEPTH + 1, _ => Null)) == Some((rc, stack[..]))
      ensures Depth(nodes, v) <= VALUE_STACK_DEPTH ==>
        (rc == Ok <==> exists x :: 0 <= x < dirty.Length && At(x) in Reach(nodes, v) && dirty[x])
    {
      stack := new Ref[VALUE_STACK_DEPTH + 1](_ => Null);
      ghost var s0 := stack[..];
      assert s0 == seq(VALUE_STACK_DEPTH + 1, _ => Null);
      FindDefined(nodes, v, 0, dirty[..], s0);
      rc := FindFirstDirty(v, stack, 0);
      if Depth(nodes, v) <= VALUE_STACK_DEPTH {
        if rc == Ok {
          FindOkLeavesPath(nodes, v, 0, dirty[..], s0);
          ghost var m: nat :| DirtyPath(nodes, dirty[..], stack[..], 0, m) && stack[..][m] in Reach(nodes, v);
          assert At(stack[m].index) in Reach(nodes, v) && dirty[stack[m].index];
        } else {
          FindShallowInBounds(nodes, v, 0, dirty[..], s0);
          FindNotFoundAllClean(nodes, v, 0, dirty[..], s0);
        }
      }
    }
  }
}
