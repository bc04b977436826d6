/**
 The collection of all caps in a thread's CSpace, and of the frames mapped in its VSpace. Both walk
 object graphs that may contain cycles, in the same way.
 */
module CapGraph {
  import opened Caps

  type Id = ObjId

  /** Objects, with the caps in their slots in slot order. */
  datatype KObject = TCB(slots: seq<Cap>) | CNode(slots: seq<Cap>) | PD(slots: seq<Cap>) | PT(slots: seq<Cap>) | Opaque

  type Objects = map<Id, KObject>

  /** The two graphs: CNodes for caps, page directories and page tables for frames. */
  datatype Space = CSpace | VSpace

  /** Caps of a thread at which collection starts. */
  predicate IsRoot(s: Space, c: Cap) {
    match s
    case CSpace => c.CNodeCap?
    case VSpace => c.PageDirectoryCap?
  }

  /** Caps that are followed. */
  predicate Follows(s: Space, c: Cap) {
    match s
    case CSpace => c.CNodeCap?
    case VSpace => c.PageDirectoryCap? || c.PageTableCap?
  }

  /** Caps that are collected without being followed. */
  predicate IsLeaf(s: Space, c: Cap) {
    match s
    case CSpace => !c.CNodeCap?
    case VSpace => c.FrameCap?
  }

  predicate IsCNode(objs: Objects, id: Id) {
    id in objs && objs[id].CNode?
  }

  /** Objects whose slots may be asked for; any other is an error in the source. */
  predicate IsNode(s: Space, objs: Objects, id: Id) {
    match s
    case CSpace => IsCNode(objs, id)
    case VSpace => id in objs
  }

  /** The caps in the slots of a node; in a VSpace other objects than page directories and page tables have none. */
  function Inside(s: Space, objs: Objects, id: Id): seq<Cap>
    requires IsNode(s, objs, id)
  {
    match s
    case CSpace => objs[id].slots
    case VSpace => if objs[id].PD? || objs[id].PT? then objs[id].slots else []
  }

  /** Every cap that collection can come across and follows points to a node. */
  predicate WellFormed(s: Space, objs: Objects) {
    && (forall id, c | id in objs && objs[id].TCB? && c in objs[id].slots && IsRoot(s, c) :: IsNode(s, objs, c.id))
    && (forall id, c | id in objs && IsNode(s, objs, id) && c in Inside(s, objs, id) && Follows(s, c) ::
          IsNode(s, objs, c.id))
  }

  predicate GoodCaps(s: Space, objs: Objects, caps: seq<Cap>) {
    forall c | c in caps && Follows(s, c) :: IsNode(s, objs, c.id)
  }

  // ----- getCaps and getFrames -----

  /** `getCaps'` and `getFrames'`: one cap, with the nodes already on the path. */
  function GetCap(s: Space, objs: Objects, visited: set<Id>, cap: Cap): seq<Cap>
    requires WellFormed(s, objs) && (Follows(s, cap) ==> IsNode(s, objs, cap.id))
    decreases objs.Keys - visited, 2, 0
  {
    if Follows(s, cap) then
      if cap.id in visited then [] else [cap] + GetNode(s, objs, visited, cap.id)
    else if IsLeaf(s, cap) then [cap]
    else []
  }

  /** `getCaps''` and `getFrames''`: the slots of one node. */
  function GetNode(s: Space, objs: Objects, visited: set<Id>, id: Id): seq<Cap>
    requires WellFormed(s, objs) && IsNode(s, objs, id)
    decreases objs.Keys - visited, 1, 0
  {
    if id in visited then []
    else GetSlots(s, objs, visited + {id}, Inside(s, objs, id))
  }

  function GetSlots(s: Space, objs: Objects, visited: set<Id>, caps: seq<Cap>): seq<Cap>
    requires WellFormed(s, objs) && GoodCaps(s, objs, caps)
    decreases objs.Keys - visited, 3, |caps|
  {
    if caps == [] then [] else GetCap(s, objs, visited, caps[0]) + GetSlots(s, objs, visited, caps[1..])
  }

  function RootsOf(s: Space, caps: seq<Cap>): (r: seq<Cap>)
    ensures forall c :: c in r <==> c in caps && IsRoot(s, c)
  {
    if caps == [] then []
    else (if IsRoot(s, caps[0]) then [caps[0]] else []) + RootsOf(s, caps[1..])
  }

  /** `getCaps` and `getFrames`: everything in the CSpace or the VSpace of a thread. */
  function Collect(s: Space, objs: Objects, tcb: Id): seq<Cap>
    requires WellFormed(s, objs) && tcb in objs && objs[tcb].TCB?
  {
    GetSlots(s, objs, {}, RootsOf(s, objs[tcb].slots))
  }

  // ----- reachable nodes, independently -----

  /** Node `b` is named by a cap in a slot of node `a`. */
  predicate Links(s: Space, objs: Objects, a: Id, b: Id) {
    IsNode(s, objs, a) && exists c :: c in Inside(s, objs, a) && Follows(s, c) && c.id == b
  }

  /** A chain of nodes, each named in the one before it. */
  predicate Chain(s: Space, objs: Objects, p: seq<Id>) {
    p != [] && IsNode(s, objs, p[0]) && forall t :: 0 <= t < |p| - 1 ==> Links(s, objs, p[t], p[t + 1])
  }

  ghost predicate ChainTo(s: Space, objs: Objects, p: seq<Id>, a: Id, b: Id) {
    Chain(s, objs, p) && p[0] == a && p[|p| - 1] == b
  }

  /** Node `id` is reached from a root named by one of the thread's caps. */
  ghost predicate ReachableNode(s: Space, objs: Objects, tcb: Id, id: Id)
    requires tcb in objs && objs[tcb].TCB?
  {
    exists root, p :: root in RootsOf(s, objs[tcb].slots) && ChainTo(s, objs, p, root.id, id)
  }

  lemma {:induction false} ChainNodes(s: Space, objs: Objects, p: seq<Id>, t: nat)
    requires WellFormed(s, objs) && Chain(s, objs, p) && t < |p|
    ensures IsNode(s, objs, p[t])
  {
    if t > 0 { assert Links(s, objs, p[t - 1], p[t]); }
  }

  lemma {:induction false} InConcat(s: Space, objs: Objects, visited: set<Id>, caps: seq<Cap>, cap: Cap, c: Cap)
    requires WellFormed(s, objs) && GoodCaps(s, objs, caps)
    requires cap in caps && c in GetCap(s, objs, visited, cap)
    ensures c in GetSlots(s, objs, visited, caps)
    decreases |caps|
  {
    if cap != caps[0] { InConcat(s, objs, visited, caps[1..], cap, c); }
  }

  lemma {:induction false} OutOfConcat(s: Space, objs: Objects, visited: set<Id>, caps: seq<Cap>, c: Cap)
    returns (cap: Cap)
    requires WellFormed(s, objs) && GoodCaps(s, objs, caps)
    requires c in GetSlots(s, objs, visited, caps)
    ensures cap in caps && c in GetCap(s, objs, visited, cap)
    decreases |caps|
  {
    if c in GetCap(s, objs, visited, caps[0]) {
      cap := caps[0];
    } else {
      cap := OutOfConcat(s, objs, visited, caps[1..], c);
    }
  }

  // ----- completeness: per-path `visited` loses nothing -----

  predicate Avoids(p: seq<Id>, visited: set<Id>) {
    forall t :: 0 <= t < |p| ==> p[t] !in visited
  }

  /**
   Whatever lies at the end of a chain that avoids `visited` is found: a chain that returns to its start can be cut
   short.
   */
  lemma {:induction false} FoundAlongChain(s: Space, objs: Objects, visited: set<Id>, p: seq<Id>, a: Id, b: Id, c: Cap)
    requires WellFormed(s, objs) && ChainTo(s, objs, p, a, b) && Avoids(p, visited)
    requires IsNode(s, objs, b) && c in Inside(s, objs, b) && IsLeaf(s, c)
    ensures IsNode(s, objs, a) && c in GetNode(s, objs, visited, a)
    decreases |p|
  {
    if |p| == 1 {
      InConcat(s, objs, visited + {a}, Inside(s, objs, a), c, c);
    } else if t :| 0 < t < |p| && p[t] == a {
      ChainNodes(s, objs, p, t);
      assert ChainTo(s, objs, p[t..], a, b);
      FoundAlongChain(s, objs, visited, p[t..], a, b, c);
    } else {
      var cap := FirstLink(s, objs, visited, p, a, b);
      FoundAlongChain(s, objs, visited + {a}, p[1..], p[1], b, c);
      InConcat(s, objs, visited + {a}, Inside(s, objs, a), cap, c);
    }
  }

  /** The first step of a chain that does not come back to its start. */
  lemma {:induction false} FirstLink(s: Space, objs: Objects, visited: set<Id>, p: seq<Id>, a: Id, b: Id)
    returns (cap: Cap)
    requires WellFormed(s, objs) && ChainTo(s, objs, p, a, b) && Avoids(p, visited) && |p| > 1
    requires forall t :: 0 < t < |p| ==> p[t] != a
    ensures IsNode(s, objs, p[1]) && ChainTo(s, objs, p[1..], p[1], b) && Avoids(p[1..], visited + {a})
    ensures cap in Inside(s, objs, a) && Follows(s, cap) && cap.id == p[1]
  {
    assert Links(s, objs, p[0], p[1]);
    ChainNodes(s, objs, p, 1);
    cap :| cap in Inside(s, objs, a) && Follows(s, cap) && cap.id == p[1];
  }

  /** Likewise every node along such a chain, the start aside, is reported by some cap. */
  lemma {:induction false} ReportedAlongChain(s: Space, objs: Objects, visited: set<Id>, p: seq<Id>, a: Id, b: Id)
    returns (c: Cap)
    requires WellFormed(s, objs) && ChainTo(s, objs, p, a, b) && Avoids(p, visited) && a != b
    ensures Follows(s, c) && c.id == b && c in GetNode(s, objs, visited, a)
    decreases |p|
  {
    if t :| 0 < t < |p| && p[t] == a {
      ChainNodes(s, objs, p, t);
      assert ChainTo(s, objs, p[t..], a, b);
      c := ReportedAlongChain(s, objs, visited, p[t..], a, b);
    } else {
      var cap := FirstLink(s, objs, visited, p, a, b);
      if p[1] == b {
        c := cap;
      } else {
        c := ReportedAlongChain(s, objs, visited + {a}, p[1..], p[1], b);
      }
      InConcat(s, objs, visited + {a}, Inside(s, objs, a), cap, c);
    }
  }

  // ----- soundness -----

  /** Everything found below node `a` lies in, or names, a node reached from it. */
  lemma {:induction false} FoundIsReached(s: Space, objs: Objects, visited: set<Id>, a: Id, c: Cap)
    returns (p: seq<Id>)
    requires WellFormed(s, objs) && IsNode(s, objs, a) && c in GetNode(s, objs, visited, a)
    ensures p != [] && ChainTo(s, objs, p, a, p[|p| - 1]) && IsNode(s, objs, p[|p| - 1])
    ensures if Follows(s, c) then p[|p| - 1] == c.id else IsLeaf(s, c) && c in Inside(s, objs, p[|p| - 1])
    decreases objs.Keys - visited
  {
    var cap := OutOfConcat(s, objs, visited + {a}, Inside(s, objs, a), c);
    if !Follows(s, cap) {
      p := [a];
    } else if c == cap {
      p := [a, cap.id];
      assert Links(s, objs, a, cap.id);
    } else {
      var q := FoundIsReached(s, objs, visited + {a}, cap.id, c);
      p := [a] + q;
      assert Links(s, objs, a, cap.id);
      forall t | 0 <= t < |p| - 1 ensures Links(s, objs, p[t], p[t + 1]) {
        if t > 0 { assert Links(s, objs, q[t - 1], q[t]); }
      }
    }
  }

  // ----- the two characterisations -----

  /** The other caps collected are exactly those in the slots of reachable nodes. */
  lemma {:induction false} CollectsExactly(s: Space, objs: Objects, tcb: Id, c: Cap)
    requires WellFormed(s, objs) && tcb in objs && objs[tcb].TCB? && IsLeaf(s, c)
    ensures c in Collect(s, objs, tcb) <==>
            exists id :: ReachableNode(s, objs, tcb, id) && IsNode(s, objs, id) && c in Inside(s, objs, id)
  {
    var roots := RootsOf(s, objs[tcb].slots);
    if c in Collect(s, objs, tcb) {
      var root := OutOfConcat(s, objs, {}, roots, c);
      var p := FoundIsReached(s, objs, {}, root.id, c);
      assert ReachableNode(s, objs, tcb, p[|p| - 1]);
    }
    if id :| ReachableNode(s, objs, tcb, id) && IsNode(s, objs, id) && c in Inside(s, objs, id) {
      var root, p :| root in roots && ChainTo(s, objs, p, root.id, id);
      FoundAlongChain(s, objs, {}, p, root.id, id, c);
      InConcat(s, objs, {}, roots, root, c);
    }
  }

  /** The nodes named by the caps collected are exactly the reachable ones. */
  lemma {:induction false} ReportsExactly(s: Space, objs: Objects, tcb: Id, id: Id)
    requires WellFormed(s, objs) && tcb in objs && objs[tcb].TCB?
    ensures (exists c :: c in Collect(s, objs, tcb) && Follows(s, c) && c.id == id) <==> ReachableNode(s, objs, tcb, id)
  {
    var roots := RootsOf(s, objs[tcb].slots);
    if c :| c in Collect(s, objs, tcb) && Follows(s, c) && c.id == id {
      var root := OutOfConcat(s, objs, {}, roots, c);
      if c == root {
        assert ChainTo(s, objs, [id], root.id, id);
      } else {
        var p := FoundIsReached(s, objs, {}, root.id, c);
      }
    }
    if ReachableNode(s, objs, tcb, id) {
      var root, p :| root in roots && ChainTo(s, objs, p, root.id, id);
      var c := root;
      if root.id != id { c := ReportedAlongChain(s, objs, {}, p, root.id, id); }
      InConcat(s, objs, {}, roots, root, c);
    }
  }
}
