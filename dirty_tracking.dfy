/**
  The dirty-flag tree walks of src/lib/plc_comm.c as functions over the
  arena: `d` holds every node's dirty flag (index by index) and `s` the
  caller's value stack. clear_dirty and find_first_dirty descend only into
  nodes typed exactly ARRAY or exactly STRUCTURE.
 */
module DirtyTracking {
  import opened Wrappers
  import opened Values

  /** The pointers clear_dirty visits from v: v itself and, below a descended node, each child's. */
  ghost function Reach(nodes: seq<Node>, v: Ref): set<Ref>
    requires WellFormed(nodes) && ValidRef(nodes, v)
    decreases if v.At? then |nodes| - v.index else 0, 1
  {
    if v.Null? then {Null}
    else if Descended(nodes[v.index].valType) then {v} + ReachKids(nodes, v.index, 0)
    else {v}
  }

  ghost function ReachKids(nodes: seq<Node>, p: nat, i: nat): set<Ref>
    requires WellFormed(nodes) && p < |nodes| && i <= |Kids(nodes[p])|
    decreases |nodes| - p, 0, |Kids(nodes[p])| - i
  {
    if i == |Kids(nodes[p])| then {}
    else
      assert NodeWellFormed(nodes, p);
      Reach(nodes, Kids(nodes[p])[i]) + ReachKids(nodes, p, i + 1)
  }

  /** How many descended levels lie below v (and including it) on the longest path. */
  function Depth(nodes: seq<Node>, v: Ref): nat
    requires WellFormed(nodes) && ValidRef(nodes, v)
    decreases if v.At? then |nodes| - v.index else 0, 1
  {
    if v.Null? || !Descended(nodes[v.index].valType) then 0
    else 1 + DepthKids(nodes, v.index, 0)
  }

  function DepthKids(nodes: seq<Node>, p: nat, i: nat): nat
    requires WellFormed(nodes) && p < |nodes| && i <= |Kids(nodes[p])|
    decreases |nodes| - p, 0, |Kids(nodes[p])| - i
  {
    if i == |Kids(nodes[p])| then 0
    else
      assert NodeWellFormed(nodes, p);
      var here := Depth(nodes, Kids(nodes[p])[i]);
      var rest := DepthKids(nodes, p, i + 1);
      if here < rest then rest else here
  }

  /**
    clear_dirty: clears v's flag, then the children of a descended node in
    order, stopping at the first child that answers anything but OK. The only
    error is NULL_PTR, from a null pointer met on the way. No flag is ever set.
   */
  function Clear(nodes: seq<Node>, v: Ref, d: seq<bool>): (r: (ValStatus, seq<bool>))
    requires WellFormed(nodes) && ValidRef(nodes, v) && |d| == |nodes|
    ensures r.0 == Ok || r.0 == NullPtr
    ensures |r.1| == |d|
    ensures forall j :: 0 <= j < |d| && r.1[j] ==> d[j]
    decreases if v.At? then |nodes| - v.index else 0, 1
  {
    if v.Null? then (NullPtr, d)
    else
      var cleared := d[v.index := false];
      if Descended(nodes[v.index].valType) then ClearKids(nodes, v.index, 0, cleared)
      else (Ok, cleared)
  }

  function ClearKids(nodes: seq<Node>, p: nat, i: nat, d: seq<bool>): (r: (ValStatus, seq<bool>))
    requires WellFormed(nodes) && p < |nodes| && i <= |Kids(nodes[p])| && |d| == |nodes|
    ensures r.0 == Ok || r.0 == NullPtr
    ensures |r.1| == |d|
    ensures forall j :: 0 <= j < |d| && r.1[j] ==> d[j]
    decreases |nodes| - p, 0, |Kids(nodes[p])| - i
  {
    if i == |Kids(nodes[p])| then (Ok, d)
    else
      assert NodeWellFormed(nodes, p);
      var (rc, d1) := Clear(nodes, Kids(nodes[p])[i], d);
      if rc != Ok then (rc, d1) else ClearKids(nodes, p, i + 1, d1)
  }

  /**
    find_first_dirty, with the stack as a sequence `s` and `k` the
    stack_index. A clean descended node is searched child by child while the
    answer is NOT_FOUND, one stack level down, but only while k is below
    VALUE_STACK_DEPTH (OUT_OF_BOUNDS otherwise). Every call ends by writing
    slot k: the node on OK, NULL otherwise. None means the C code has
    undefined behaviour: it dereferences a null child or writes slot k at or
    beyond the end of the stack.
   */
  function Find(nodes: seq<Node>, v: Ref, k: nat, d: seq<bool>, s: seq<Ref>): (r: Option<(ValStatus, seq<Ref>)>)
    requires WellFormed(nodes) && ValidRef(nodes, v) && |d| == |nodes|
    ensures r.Some? ==> r.value.0 in {Ok, NotFound, OutOfBounds}
    ensures r.Some? ==> |r.value.1| == |s| && k < |s|
    ensures r.Some? ==> r.value.1[k] == if r.value.0 == Ok then v else Null
    ensures r.Some? ==> forall j :: 0 <= j < |s| && (j < k || Max(k, VALUE_STACK_DEPTH) < j) ==> r.value.1[j] == s[j]
    decreases if v.At? then |nodes| - v.index else 0, 1
  {
    if v.Null? || |s| <= k then None
    else
      var walked: Option<(ValStatus, seq<Ref>)> :=
        if d[v.index] then Some((Ok, s))
        else if !Descended(nodes[v.index].valType) then Some((NotFound, s))
        else if k < VALUE_STACK_DEPTH then FindIn(nodes, v.index, 0, k + 1, d, s)
        else Some((OutOfBounds, s));
      match walked
      case None => None
      case Some((rc, s1)) => Some((rc, s1[k := if rc == Ok then v else Null]))
  }

  /** The loop of find_first_dirty over the children of p, from child i on, at stack level k. */
  function FindIn(nodes: seq<Node>, p: nat, i: nat, k: nat, d: seq<bool>, s: seq<Ref>): (r: Option<(ValStatus, seq<Ref>)>)
    requires WellFormed(nodes) && p < |nodes| && i <= |Kids(nodes[p])| && |d| == |nodes|
    ensures r.Some? ==> r.value.0 in {Ok, NotFound, OutOfBounds}
    ensures r.Some? ==> |r.value.1| == |s|
    ensures r.Some? ==> forall j :: 0 <= j < |s| && (j < k || Max(k, VALUE_STACK_DEPTH) < j) ==> r.value.1[j] == s[j]
    decreases |nodes| - p, 0, |Kids(nodes[p])| - i
  {
    if i == |Kids(nodes[p])| then Some((NotFound, s))
    else
      assert NodeWellFormed(nodes, p);
      match Find(nodes, Kids(nodes[p])[i], k, d, s)
      case None => None
      case Some((rc, s1)) => if rc != NotFound then Some((rc, s1)) else FindIn(nodes, p, i + 1, k, d, s1)
  }

  function Max(a: nat, b: nat): nat {
    if a < b then b else a
  }

  // ---------------------------------------------------------------------------
  // clear_dirty

  /** clear_dirty answers OK exactly when its walk meets no null pointer. */
  lemma {:induction false} ClearOkIffNoNull(nodes: seq<Node>, v: Ref, d: seq<bool>)
    requires WellFormed(nodes) && ValidRef(nodes, v) && |d| == |nodes|
    ensures Clear(nodes, v, d).0 == Ok <==> Null !in Reach(nodes, v)
    decreases if v.At? then |nodes| - v.index else 0, 1
  {
    if v.At? && Descended(nodes[v.index].valType) {
      ClearKidsOkIffNoNull(nodes, v.index, 0, d[v.index := false]);
    }
  }

  lemma {:induction false} ClearKidsOkIffNoNull(nodes: seq<Node>, p: nat, i: nat, d: seq<bool>)
    requires WellFormed(nodes) && p < |nodes| && i <= |Kids(nodes[p])| && |d| == |nodes|
    ensures ClearKids(nodes, p, i, d).0 == Ok <==> Null !in ReachKids(nodes, p, i)
    decreases |nodes| - p, 0, |Kids(nodes[p])| - i
  {
    if i < |Kids(nodes[p])| {
      assert NodeWellFormed(nodes, p);
      var c := Kids(nodes[p])[i];
      ClearOkIffNoNull(nodes, c, d);
      ClearKidsOkIffNoNull(nodes, p, i + 1, Clear(nodes, c, d).1);
    }
  }

  /** clear_dirty touches no flag outside its walk. */
  lemma {:induction false} ClearFrame(nodes: seq<Node>, v: Ref, d: seq<bool>)
    requires WellFormed(nodes) && ValidRef(nodes, v) && |d| == |nodes|
    ensures forall j :: 0 <= j < |d| && At(j) !in Reach(nodes, v) ==> Clear(nodes, v, d).1[j] == d[j]
    decreases if v.At? then |nodes| - v.index else 0, 1
  {
    if v.At? && Descended(nodes[v.index].valType) {
      ClearKidsFrame(nodes, v.index, 0, d[v.index := false]);
    }
  }

  lemma {:induction false} ClearKidsFrame(nodes: seq<Node>, p: nat, i: nat, d: seq<bool>)
    requires WellFormed(nodes) && p < |nodes| && i <= |Kids(nodes[p])| && |d| == |nodes|
    ensures forall j :: 0 <= j < |d| && At(j) !in ReachKids(nodes, p, i) ==> ClearKids(nodes, p, i, d).1[j] == d[j]
    decreases |nodes| - p, 0, |Kids(nodes[p])| - i
  {
    if i < |Kids(nodes[p])| {
      assert NodeWellFormed(nodes, p);
      var c := Kids(nodes[p])[i];
      ClearFrame(nodes, c, d);
      ClearKidsFrame(nodes, p, i + 1, Clear(nodes, c, d).1);
    }
  }

  /** When clear_dirty answers OK, every node of its walk is clean. */
  lemma {:induction false} ClearCleansReach(nodes: seq<Node>, v: Ref, d: seq<bool>)
    requires WellFormed(nodes) && ValidRef(nodes, v) && |d| == |nodes|
    requires Clear(nodes, v, d).0 == Ok
    ensures forall j :: 0 <= j < |d| && At(j) in Reach(nodes, v) ==> !Clear(nodes, v, d).1[j]
    decreases if v.At? then |nodes| - v.index else 0, 1
  {
    if v.At? && Descended(nodes[v.index].valType) {
      ClearKidsCleansReach(nodes, v.index, 0, d[v.index := false]);
    }
  }

  lemma {:induction false} ClearKidsCleansReach(nodes: seq<Node>, p: nat, i: nat, d: seq<bool>)
    requires WellFormed(nodes) && p < |nodes| && i <= |Kids(nodes[p])| && |d| == |nodes|
    requires ClearKids(nodes, p, i, d).0 == Ok
    ensures forall j :: 0 <= j < |d| && At(j) in ReachKids(nodes, p, i) ==> !ClearKids(nodes, p, i, d).1[j]
    decreases |nodes| - p, 0, |Kids(nodes[p])| - i
  {
    if i < |Kids(nodes[p])| {
      assert NodeWellFormed(nodes, p);
      var c := Kids(nodes[p])[i];
      ClearCleansReach(nodes, c, d);
      ClearKidsCleansReach(nodes, p, i + 1, Clear(nodes, c, d).1);
    }
  }

  // ---------------------------------------------------------------------------
  // find_first_dirty

  /**
    Slots k..m of s hold a path down the tree: each a clean descended node
    whose next slot holds one of its children, ending at a dirty node.
   */
  ghost predicate DirtyPath(nodes: seq<Node>, d: seq<bool>, s: seq<Ref>, k: nat, m: nat)
    requires |d| == |nodes|
  {
    && k <= m < |s|
    && (forall j :: k <= j <= m ==> s[j].At? && s[j].index < |nodes|)
    && (forall j :: k <= j < m ==>
          !d[s[j].index] && Descended(nodes[s[j].index].valType) && IsKid(nodes, s[j].index, s[j + 1].index))
    && d[s[m].index]
  }

  /**
    With a stack longer than both k and VALUE_STACK_DEPTH and no null pointer
    on the walk, find_first_dirty is defined: every slot it writes exists.
   */
  lemma {:induction false} FindDefined(nodes: seq<Node>, v: Ref, k: nat, d: seq<bool>, s: seq<Ref>)
    requires WellFormed(nodes) && ValidRef(nodes, v) && |d| == |nodes|
    requires Null !in Reach(nodes, v) && Max(k, VALUE_STACK_DEPTH) < |s|
    ensures Find(nodes, v, k, d, s).Some?
    decreases if v.At? then |nodes| - v.index else 0, 1
  {
    if !d[v.index] && Descended(nodes[v.index].valType) && k < VALUE_STACK_DEPTH {
      FindInDefined(nodes, v.index, 0, k + 1, d, s);
    }
  }

  lemma {:induction false} FindInDefined(nodes: seq<Node>, p: nat, i: nat, k: nat, d: seq<bool>, s: seq<Ref>)
    requires WellFormed(nodes) && p < |nodes| && i <= |Kids(nodes[p])| && |d| == |nodes|
    requires Null !in ReachKids(nodes, p, i) && Max(k, VALUE_STACK_DEPTH) < |s|
    ensures FindIn(nodes, p, i, k, d, s).Some?
    decreases |nodes| - p, 0, |Kids(nodes[p])| - i
  {
    if i < |Kids(nodes[p])| {
      assert NodeWellFormed(nodes, p);
      var c := Kids(nodes[p])[i];
      FindDefined(nodes, c, k, d, s);
      var s1 := Find(nodes, c, k, d, s).value.1;
      FindInDefined(nodes, p, i + 1, k, d, s1);
    }
  }

  /** NOT_FOUND means the whole walk was searched and found clean. */
  lemma {:induction false} FindNotFoundAllClean(nodes: seq<Node>, v: Ref, k: nat, d: seq<bool>, s: seq<Ref>)
    requires WellFormed(nodes) && ValidRef(nodes, v) && |d| == |nodes|
    requires Find(nodes, v, k, d, s).Some? && Find(nodes, v, k, d, s).value.0 == NotFound
    ensures forall j :: 0 <= j < |d| && At(j) in Reach(nodes, v) ==> !d[j]
    decreases if v.At? then |nodes| - v.index else 0, 1
  {
    if Descended(nodes[v.index].valType) {
      FindInNotFoundAllClean(nodes, v.index, 0, k + 1, d, s);
    }
  }

  lemma {:induction false} FindInNotFoundAllClean(nodes: seq<Node>, p: nat, i: nat, k: nat, d: seq<bool>, s: seq<Ref>)
    requires WellFormed(nodes) && p < |nodes| && i <= |Kids(nodes[p])| && |d| == |nodes|
    requires FindIn(nodes, p, i, k, d, s).Some? && FindIn(nodes, p, i, k, d, s).value.0 == NotFound
    ensures forall j :: 0 <= j < |d| && At(j) in ReachKids(nodes, p, i) ==> !d[j]
    decreases |nodes| - p, 0, |Kids(nodes[p])| - i
  {
    if i < |Kids(nodes[p])| {
      assert NodeWellFormed(nodes, p);
      var c := Kids(nodes[p])[i];
      FindNotFoundAllClean(nodes, c, k, d, s);
      FindInNotFoundAllClean(nodes, p, i + 1, k, d, Find(nodes, c, k, d, s).value.1);
    }
  }

  /** Over a clean walk find_first_dirty never answers OK. */
  lemma {:induction false} FindCleanNotOk(nodes: seq<Node>, v: Ref, k: nat, d: seq<bool>, s: seq<Ref>)
    requires WellFormed(nodes) && ValidRef(nodes, v) && |d| == |nodes|
    requires forall j :: 0 <= j < |d| && At(j) in Reach(nodes, v) ==> !d[j]
    requires Find(nodes, v, k, d, s).Some?
    ensures Find(nodes, v, k, d, s).value.0 != Ok
    decreases if v.At? then |nodes| - v.index else 0, 1
  {
    if Descended(nodes[v.index].valType) && k < VALUE_STACK_DEPTH {
      FindInCleanNotOk(nodes, v.index, 0, k + 1, d, s);
    }
  }

  lemma {:induction false} FindInCleanNotOk(nodes: seq<Node>, p: nat, i: nat, k: nat, d: seq<bool>, s: seq<Ref>)
    requires WellFormed(nodes) && p < |nodes| && i <= |Kids(nodes[p])| && |d| == |nodes|
    requires forall j :: 0 <= j < |d| && At(j) in ReachKids(nodes, p, i) ==> !d[j]
    requires FindIn(nodes, p, i, k, d, s).Some?
    ensures FindIn(nodes, p, i, k, d, s).value.0 != Ok
    decreases |nodes| - p, 0, |Kids(nodes[p])| - i
  {
    if i < |Kids(nodes[p])| {
      assert NodeWellFormed(nodes, p);
      var c := Kids(nodes[p])[i];
      FindCleanNotOk(nodes, c, k, d, s);
      var r := Find(nodes, c, k, d, s).value;
      if r.0 == NotFound {
        FindInCleanNotOk(nodes, p, i + 1, k, d, r.1);
      }
    }
  }

  /** A walk that starts at level k and fits below VALUE_STACK_DEPTH never answers OUT_OF_BOUNDS. */
  lemma {:induction false} FindShallowInBounds(nodes: seq<Node>, v: Ref, k: nat, d: seq<bool>, s: seq<Ref>)
    requires WellFormed(nodes) && ValidRef(nodes, v) && |d| == |nodes|
    requires k + Depth(nodes, v) <= VALUE_STACK_DEPTH
    requires Find(nodes, v, k, d, s).Some?
    ensures Find(nodes, v, k, d, s).value.0 != OutOfBounds
    decreases if v.At? then |nodes| - v.index else 0, 1
  {
    if !d[v.index] && Descended(nodes[v.index].valType) {
      FindInShallowInBounds(nodes, v.index, 0, k + 1, d, s);
    }
  }

  lemma {:induction false} FindInShallowInBounds(nodes: seq<Node>, p: nat, i: nat, k: nat, d: seq<bool>, s: seq<Ref>)
    requires WellFormed(nodes) && p < |nodes| && i <= |Kids(nodes[p])| && |d| == |nodes|
    requires k + DepthKids(nodes, p, i) <= VALUE_STACK_DEPTH
    requires FindIn(nodes, p, i, k, d, s).Some?
    ensures FindIn(nodes, p, i, k, d, s).value.0 != OutOfBounds
    decreases |nodes| - p, 0, |Kids(nodes[p])| - i
  {
    if i < |Kids(nodes[p])| {
      assert NodeWellFormed(nodes, p);
      var c := Kids(nodes[p])[i];
      FindShallowInBounds(nodes, c, k, d, s);
      var r := Find(nodes, c, k, d, s).value;
      if r.0 == NotFound {
        FindInShallowInBounds(nodes, p, i + 1, k, d, r.1);
      }
    }
  }

  /**
    Over a clean, null-free walk deeper than VALUE_STACK_DEPTH - k the answer
    is OUT_OF_BOUNDS; with FindShallowInBounds, a clean walk answers
    OUT_OF_BOUNDS exactly when it does not fit below VALUE_STACK_DEPTH.
   */
  lemma {:induction false} FindDeepCleanOutOfBounds(nodes: seq<Node>, v: Ref, k: nat, d: seq<bool>, s: seq<Ref>)
    requires WellFormed(nodes) && ValidRef(nodes, v) && |d| == |nodes|
    requires Null !in Reach(nodes, v) && Max(k, VALUE_STACK_DEPTH) < |s|
    requires forall j :: 0 <= j < |d| && At(j) in Reach(nodes, v) ==> !d[j]
    requires 0 < Depth(nodes, v) && VALUE_STACK_DEPTH < k + Depth(nodes, v)
    ensures Find(nodes, v, k, d, s).Some? && Find(nodes, v, k, d, s).value.0 == OutOfBounds
    decreases if v.At? then |nodes| - v.index else 0, 1
  {
    FindDefined(nodes, v, k, d, s);
    assert !d[v.index];
    if k < VALUE_STACK_DEPTH {
      FindInDeepCleanOutOfBounds(nodes, v.index, 0, k + 1, d, s);
    }
  }

  lemma {:induction false} FindInDeepCleanOutOfBounds(nodes: seq<Node>, p: nat, i: nat, k: nat, d: seq<bool>, s: seq<Ref>)
    requires WellFormed(nodes) && p < |nodes| && i <= |Kids(nodes[p])| && |d| == |nodes|
    requires Null !in ReachKids(nodes, p, i) && Max(k, VALUE_STACK_DEPTH) < |s|
    requires forall j :: 0 <= j < |d| && At(j) in ReachKids(nodes, p, i) ==> !d[j]
    requires 0 < DepthKids(nodes, p, i) && VALUE_STACK_DEPTH < k + DepthKids(nodes, p, i)
    ensures FindIn(nodes, p, i, k, d, s).Some? && FindIn(nodes, p, i, k, d, s).value.0 == OutOfBounds
    decreases |nodes| - p, 0, |Kids(nodes[p])| - i
  {
    assert NodeWellFormed(nodes, p);
    var c := Kids(nodes[p])[i];
    FindDefined(nodes, c, k, d, s);
    FindCleanNotOk(nodes, c, k, d, s);
    var r := Find(nodes, c, k, d, s).value;
    if Depth(nodes, c) == DepthKids(nodes, p, i) {
      FindDeepCleanOutOfBounds(nodes, c, k, d, s);
    } else if r.0 == NotFound {
      FindInDeepCleanOutOfBounds(nodes, p, i + 1, k, d, r.1);
    }
  }

  /**
    Neither walk goes below a device: from a device, clear_dirty clears only
    the device's own flag, and find_first_dirty reads only the device's own
    flag, whatever its fields hold.
   */
  lemma DeviceIsNotWalked(nodes: seq<Node>, v: nat, k: nat, d: seq<bool>, s: seq<Ref>)
    requires WellFormed(nodes) && v < |nodes| && |d| == |nodes| && k < |s|
    requires nodes[v].valType == TYPE_DEVICE
    ensures Reach(nodes, At(v)) == {At(v)}
    ensures Clear(nodes, At(v), d) == (Ok, d[v := false])
    ensures Find(nodes, At(v), k, d, s) == Some(if d[v] then (Ok, s[k := At(v)]) else (NotFound, s[k := Null]))
  {
  }

  /**
    OK leaves on the stack, from slot k on, the path from v down to a dirty
    node of its walk.
   */
  lemma {:induction false} FindOkLeavesPath(nodes: seq<Node>, v: Ref, k: nat, d: seq<bool>, s: seq<Ref>)
    requires WellFormed(nodes) && ValidRef(nodes, v) && |d| == |nodes|
    requires Find(nodes, v, k, d, s).Some? && Find(nodes, v, k, d, s).value.0 == Ok
    ensures var s' := Find(nodes, v, k, d, s).value.1;
      s'[k] == v && exists m: nat :: DirtyPath(nodes, d, s', k, m) && s'[m] in Reach(nodes, v)
    decreases if v.At? then |nodes| - v.index else 0, 1
  {
    var s' := Find(nodes, v, k, d, s).value.1;
    if d[v.index] {
      assert DirtyPath(nodes, d, s', k, k);
    } else {
      var s1 := FindIn(nodes, v.index, 0, k + 1, d, s).value.1;
      FindInOkLeavesPath(nodes, v.index, 0, k + 1, d, s);
      var m: nat :| DirtyPath(nodes, d, s1, k + 1, m) && s1[k + 1].At? && IsKid(nodes, v.index, s1[k + 1].index)
        && s1[m] in ReachKids(nodes, v.index, 0);
      assert s' == s1[k := v];
      assert DirtyPath(nodes, d, s', k, m);
    }
  }

  lemma {:induction false} FindInOkLeavesPath(nodes: seq<Node>, p: nat, i: nat, k: nat, d: seq<bool>, s: seq<Ref>)
    requires WellFormed(nodes) && p < |nodes| && i <= |Kids(nodes[p])| && |d| == |nodes|
    requires FindIn(nodes, p, i, k, d, s).Some? && FindIn(nodes, p, i, k, d, s).value.0 == Ok
    ensures var s' := FindIn(nodes, p, i, k, d, s).value.1;
      exists m: nat :: DirtyPath(nodes, d, s', k, m) && s'[k].At? && IsKid(nodes, p, s'[k].index)
        && s'[m] in ReachKids(nodes, p, i)
    decreases |nodes| - p, 0, |Kids(nodes[p])| - i
  {
    assert NodeWellFormed(nodes, p);
    var c := Kids(nodes[p])[i];
    var r := Find(nodes, c, k, d, s).value;
    if r.0 == Ok {
      FindOkLeavesPath(nodes, c, k, d, s);
      assert c in Kids(nodes[p]);
    } else {
      FindInOkLeavesPath(nodes, p, i + 1, k, d, r.1);
    }
  }

  /** After a clear_dirty that answers OK, find_first_dirty over the same walk finds nothing. */
  lemma ClearThenFindMisses(nodes: seq<Node>, v: Ref, k: nat, d: seq<bool>, s: seq<Ref>)
    requires WellFormed(nodes) && ValidRef(nodes, v) && |d| == |nodes|
    requires Clear(nodes, v, d).0 == Ok && Max(k, VALUE_STACK_DEPTH) < |s|
    ensures Find(nodes, v, k, Clear(nodes, v, d).1, s).Some?
    ensures Find(nodes, v, k, Clear(nodes, v, d).1, s).value.0 in {NotFound, OutOfBounds}
  {
    var d' := Clear(nodes, v, d).1;
    ClearOkIffNoNull(nodes, v, d);
    ClearCleansReach(nodes, v, d);
    FindDefined(nodes, v, k, d', s);
    FindCleanNotOk(nodes, v, k, d', s);
  }

  /**
    A dirty node anywhere on a null-free walk that fits below
    VALUE_STACK_DEPTH is found: the answer is OK.
   */
  lemma FindLocatesDirty(nodes: seq<Node>, v: Ref, k: nat, d: seq<bool>, s: seq<Ref>, x: nat)
    requires WellFormed(nodes) && ValidRef(nodes, v) && |d| == |nodes|
    requires Null !in Reach(nodes, v) && k + Depth(nodes, v) <= VALUE_STACK_DEPTH && Max(k, VALUE_STACK_DEPTH) < |s|
    requires x < |d| && At(x) in Reach(nodes, v) && d[x]
    ensures Find(nodes, v, k, d, s).Some? && Find(nodes, v, k, d, s).value.0 == Ok
  {
    FindDefined(nodes, v, k, d, s);
    FindShallowInBounds(nodes, v, k, d, s);
    if Find(nodes, v, k, d, s).value.0 == NotFound {
      FindNotFoundAllClean(nodes, v, k, d, s);
    }
  }

  // ---------------------------------------------------------------------------
  // The stack bound of find_first_dirty

  /** n arrays, each holding the next as its only element. */
  function ArrayChain(n: nat): (nodes: seq<Node>)
    ensures |nodes| == n && WellFormed(nodes)
  {
    seq(n, i requires 0 <= i < n =>
      Node(TYPE_ARRAY, if i == 0 then Null else At(i - 1), 0, 0,
           ArrayValue(TYPE_BOOL, if i + 1 < n then [At(i + 1)] else [])))
  }

  /** The walk of a clean chain, started at node i on level i, always reaches slot 50. */
  lemma {:induction false} ChainWalkReachesSlotFifty(i: nat, s: seq<Ref>)
    requires i <= VALUE_STACK_DEPTH
    ensures var r := Find(ArrayChain(VALUE_STACK_DEPTH + 1), At(i), i, seq(VALUE_STACK_DEPTH + 1, _ => false), s);
      (|s| <= VALUE_STACK_DEPTH ==> r.None?)
      && (VALUE_STACK_DEPTH < |s| ==> r.Some? && r.value.0 == OutOfBounds && r.value.1[VALUE_STACK_DEPTH] == Null)
    decreases VALUE_STACK_DEPTH - i
  {
    var nodes := ArrayChain(VALUE_STACK_DEPTH + 1);
    var d := seq(VALUE_STACK_DEPTH + 1, _ => false);
    if i < VALUE_STACK_DEPTH && i < |s| {
      ChainWalkReachesSlotFifty(i + 1, s);
      assert Kids(nodes[i]) == [At(i + 1)];
    }
  }

  /**
    find_first_dirty writes slot 50 of the stack: from the root of 51 clean
    nested arrays it reaches level 50, answers OUT_OF_BOUNDS there and
    writes NULL into slot 50. value_sync declares the stack with exactly
    VALUE_STACK_DEPTH (50) slots, so the write is past its end.
   */
  lemma FiftySlotStackOverflows(s: seq<Ref>)
    requires |s| == VALUE_STACK_DEPTH
    ensures Find(ArrayChain(VALUE_STACK_DEPTH + 1), At(0), 0, seq(VALUE_STACK_DEPTH + 1, _ => false), s).None?
    ensures var t := s + [Null];
      var r := Find(ArrayChain(VALUE_STACK_DEPTH + 1), At(0), 0, seq(VALUE_STACK_DEPTH + 1, _ => false), t);
      r.Some? && r.value.0 == OutOfBounds && r.value.1[VALUE_STACK_DEPTH] == Null
  {
    ChainWalkReachesSlotFifty(0, s);
    ChainWalkReachesSlotFifty(0, s + [Null]);
  }
}
