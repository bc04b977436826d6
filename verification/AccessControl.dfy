/**
 The analysis of a whole model: caps are collected from the objects, and the matrices are described by
 the CNodes that threads reach.
 */
module AccessControl {
  import opened Caps
  import opened CapGraph
  import opened Closure
  import opened Stcc
  import opened Saturation

  predicate AreThreads(objs: Objects, tcbs: seq<Id>) {
    && WellFormed(CSpace, objs) && WellFormed(VSpace, objs)
    && (forall i :: 0 <= i < |tcbs| ==> tcbs[i] in objs && objs[tcbs[i]].TCB?)
    && (forall i, j :: 0 <= i < j < |tcbs| ==> tcbs[i] != tcbs[j])
  }

  /** `cspaces`: every thread with the caps collected from its CSpace. */
  function CSpaces(objs: Objects, tcbs: seq<Id>): (r: seq<Thread>)
    requires AreThreads(objs, tcbs)
    ensures DistinctThreads(r) && |r| == |tcbs|
    ensures forall i :: 0 <= i < |tcbs| ==> r[i] == Thread(tcbs[i], set c | c in Collect(CSpace, objs, tcbs[i]))
  {
    seq(|tcbs|, i requires 0 <= i < |tcbs| => Thread(tcbs[i], set c | c in Collect(CSpace, objs, tcbs[i])))
  }

  /** `vspaces`: the frames collected from the VSpace of every thread. */
  function VSpaces(objs: Objects, tcbs: seq<Id>): (r: seq<set<Cap>>)
    requires AreThreads(objs, tcbs)
    ensures |r| == |tcbs| && forall i :: 0 <= i < |tcbs| ==> r[i] == set c | c in Collect(VSpace, objs, tcbs[i])
  {
    seq(|tcbs|, i requires 0 <= i < |tcbs| => set c | c in Collect(VSpace, objs, tcbs[i]))
  }

  /** Thread `t` reaches a CNode with cap `c` in one of its slots. */
  ghost predicate Holds(objs: Objects, t: Id, c: Cap)
    requires t in objs && objs[t].TCB?
  {
    exists n :: ReachableCNode(objs, t, n) && IsCNode(objs, n) && c in objs[n].slots
  }

  /** CNode `n` is reached from the roots of the thread's CSpace. */
  ghost predicate ReachableCNode(objs: Objects, t: Id, n: Id)
    requires t in objs && objs[t].TCB?
  {
    ReachableNode(CSpace, objs, t, n)
  }

  /** Frame cap `c` lies in a page directory or page table that is reached from a page directory cap of the thread. */
  ghost predicate Maps(objs: Objects, t: Id, c: Cap)
    requires t in objs && objs[t].TCB?
  {
    c.FrameCap? && exists n ::
      ReachableNode(VSpace, objs, t, n) && n in objs && (objs[n].PD? || objs[n].PT?) && c in objs[n].slots
  }

  /** The thread can use the cap: it holds it, or has it mapped. */
  ghost predicate Uses(objs: Objects, t: Id, c: Cap)
    requires t in objs && objs[t].TCB?
  {
    Holds(objs, t, c) || Maps(objs, t, c)
  }

  /** What is written over `c` can be read over `d`. */
  predicate Passes(c: Cap, d: Cap) {
    && ((c.EndpointCap? && d.EndpointCap?) || (c.NotificationCap? && d.NotificationCap?)
        || (PlainFrame(c) && PlainFrame(d)))
    && c.id == d.id && Write in c.rights && Read in d.rights
  }

  /** `t` can write what `u` can read; over an endpoint information also flows back. */
  ghost predicate MayFlow(objs: Objects, t: Id, u: Id)
    requires t in objs && objs[t].TCB? && u in objs && objs[u].TCB?
  {
    || (exists c, d :: Uses(objs, t, c) && Uses(objs, u, d) && Passes(c, d))
    || (exists c, d :: Uses(objs, u, c) && Uses(objs, t, d) && Passes(c, d) && c.EndpointCap?)
  }

  /** `t` and `u` reach a CNode in common, `t` holds a cap to `u`, or they share an endpoint that `t` may grant over. */
  ghost predicate MayLeak(objs: Objects, t: Id, u: Id)
    requires t in objs && objs[t].TCB? && u in objs && objs[u].TCB?
  {
    || (exists n :: ReachableCNode(objs, t, n) && ReachableCNode(objs, u, n))
    || Holds(objs, t, TcbCap(u))
    || (exists c, d :: Holds(objs, t, c) && Holds(objs, u, d) && c.EndpointCap? && d.EndpointCap? && c.id == d.id
          && Grant in c.rights && Read in d.rights)
  }

  /** Threads between which information may flow directly. */
  ghost function MayFlowGraph(objs: Objects, tcbs: seq<Id>): Graph
    requires AreThreads(objs, tcbs)
  {
    set i: nat, j: nat | i < |tcbs| && j < |tcbs| && i != j && MayFlow(objs, tcbs[i], tcbs[j]) :: (i, j)
  }

  /** Threads that may leak to each other directly. */
  ghost function MayLeakGraph(objs: Objects, tcbs: seq<Id>): Graph
    requires AreThreads(objs, tcbs)
  {
    set i: nat, j: nat | i < |tcbs| && j < |tcbs| && i != j && MayLeak(objs, tcbs[i], tcbs[j]) :: (i, j)
  }

  lemma {:induction false} CollectedIsHeld(objs: Objects, tcbs: seq<Id>, i: nat)
    requires AreThreads(objs, tcbs) && i < |tcbs|
    ensures forall c: Cap :: !c.CNodeCap? ==> (c in CSpaces(objs, tcbs)[i].caps <==> Holds(objs, tcbs[i], c))
    ensures forall n :: (exists c :: c in CSpaces(objs, tcbs)[i].caps && c.CNodeCap? && c.id == n)
                        <==> ReachableCNode(objs, tcbs[i], n)
  {
    forall c: Cap | !c.CNodeCap? ensures c in CSpaces(objs, tcbs)[i].caps <==> Holds(objs, tcbs[i], c) {
      CollectsExactly(CSpace, objs, tcbs[i], c);
    }
    forall n ensures (exists c :: c in CSpaces(objs, tcbs)[i].caps && c.CNodeCap? && c.id == n)
                     <==> ReachableCNode(objs, tcbs[i], n)
    {
      ReportsExactly(CSpace, objs, tcbs[i], n);
    }
  }

  /** The direct leaks found from collected caps are those that reachable CNodes allow. */
  lemma {:induction false} LeakIsMayLeak(objs: Objects, tcbs: seq<Id>, i: nat, j: nat)
    requires AreThreads(objs, tcbs) && i < |tcbs| && j < |tcbs|
    ensures CanLeak(CSpaces(objs, tcbs)[i], CSpaces(objs, tcbs)[j]) <==> MayLeak(objs, tcbs[i], tcbs[j])
  {
    var t, u := CSpaces(objs, tcbs)[i], CSpaces(objs, tcbs)[j];
    CollectedIsHeld(objs, tcbs, i);
    CollectedIsHeld(objs, tcbs, j);
    assert TcbCap(u.id) in t.caps <==> Holds(objs, tcbs[i], TcbCap(tcbs[j]));
    if c, d :| c in t.caps && d in u.caps && c.CNodeCap? && d.CNodeCap? && c.id == d.id {
      assert ReachableCNode(objs, tcbs[i], c.id) && ReachableCNode(objs, tcbs[j], c.id);
    }
  }

  lemma {:induction false} LeakGraphs(objs: Objects, tcbs: seq<Id>)
    requires AreThreads(objs, tcbs)
    ensures LeakGraph(CSpaces(objs, tcbs)) == MayLeakGraph(objs, tcbs)
  {
    forall i: nat, j: nat ensures (i, j) in LeakGraph(CSpaces(objs, tcbs)) <==> (i, j) in MayLeakGraph(objs, tcbs) {
      if i < |tcbs| && j < |tcbs| { LeakIsMayLeak(objs, tcbs, i, j); }
    }
    assert forall e :: e in LeakGraph(CSpaces(objs, tcbs)) <==> (e.0, e.1) in LeakGraph(CSpaces(objs, tcbs));
    assert forall e :: e in MayLeakGraph(objs, tcbs) <==> (e.0, e.1) in MayLeakGraph(objs, tcbs);
  }

  /** The threads whose flows are compared: the caps of the CSpace and the frames of the VSpace together. */
  function Joint(objs: Objects, tcbs: seq<Id>): seq<Thread>
    requires AreThreads(objs, tcbs)
  {
    WithFrames(CSpaces(objs, tcbs), VSpaces(objs, tcbs))
  }

  /** The caps over which information can flow are those a thread holds or has mapped. */
  lemma {:induction false} CollectedIsUsed(objs: Objects, tcbs: seq<Id>, i: nat, c: Cap)
    requires AreThreads(objs, tcbs) && i < |tcbs| && (c.EndpointCap? || c.NotificationCap? || c.FrameCap?)
    ensures c in Joint(objs, tcbs)[i].caps <==> Uses(objs, tcbs[i], c)
  {
    CollectedIsHeld(objs, tcbs, i);
    if c.FrameCap? {
      CollectsExactly(VSpace, objs, tcbs[i], c);
    } else if c in Collect(VSpace, objs, tcbs[i]) {
      NoOtherMapped(objs, tcbs[i], c);
    }
  }

  lemma {:induction false} NoOtherMapped(objs: Objects, t: Id, c: Cap)
    requires WellFormed(VSpace, objs) && t in objs && objs[t].TCB? && c in Collect(VSpace, objs, t)
    ensures c.FrameCap? || c.PageDirectoryCap? || c.PageTableCap?
  {
    var root := OutOfConcat(VSpace, objs, {}, RootsOf(VSpace, objs[t].slots), c);
    if c != root { var p := FoundIsReached(VSpace, objs, {}, root.id, c); }
  }

  /** The direct flows found from collected caps are those between caps that threads hold or have mapped. */
  lemma {:induction false} FlowIsMayFlow(objs: Objects, tcbs: seq<Id>, i: nat, j: nat)
    requires AreThreads(objs, tcbs) && i < |tcbs| && j < |tcbs|
    ensures CanFlow(Joint(objs, tcbs)[i], Joint(objs, tcbs)[j]) <==> MayFlow(objs, tcbs[i], tcbs[j])
  {
    var t, u := Joint(objs, tcbs)[i], Joint(objs, tcbs)[j];
    forall c, d | Passes(c, d)
      ensures c in t.caps && d in u.caps <==> Uses(objs, tcbs[i], c) && Uses(objs, tcbs[j], d)
      ensures c in u.caps && d in t.caps <==> Uses(objs, tcbs[j], c) && Uses(objs, tcbs[i], d)
    {
      CollectedIsUsed(objs, tcbs, i, c);
      CollectedIsUsed(objs, tcbs, j, d);
      CollectedIsUsed(objs, tcbs, j, c);
      CollectedIsUsed(objs, tcbs, i, d);
    }
    CanFlowPasses(t, u);
  }

  /** Endpoints pass both ways, notifications and frames one way. */
  lemma {:induction false} CanFlowPasses(t: Thread, u: Thread)
    ensures CanFlow(t, u) <==>
            || (exists c, d :: c in t.caps && d in u.caps && Passes(c, d))
            || (exists c, d :: c in u.caps && d in t.caps && Passes(c, d) && c.EndpointCap?)
  {
    PassesOneWay(t, u);
    CallsPass(u, t);
  }

  lemma {:induction false} CallsPass(t: Thread, u: Thread)
    ensures CallsTo(t, u) <==> exists c, d :: c in t.caps && d in u.caps && Passes(c, d) && c.EndpointCap?
  {
    if CallsTo(t, u) {
      var c, d :| c in t.caps && d in u.caps && c.EndpointCap? && d.EndpointCap? && c.id == d.id
        && Write in c.rights && Read in d.rights;
      assert Passes(c, d);
    }
  }

  lemma {:induction false} PassesOneWay(t: Thread, u: Thread)
    ensures CallsTo(t, u) || WritesTo(t, u) <==> exists c, d :: c in t.caps && d in u.caps && Passes(c, d)
  {
    CallsPass(t, u);
    if WritesTo(t, u) {
      var c, d :| c in t.caps && d in u.caps
        && ((c.NotificationCap? && d.NotificationCap?) || (PlainFrame(c) && PlainFrame(d)))
        && c.id == d.id && Write in c.rights && Read in d.rights;
      assert Passes(c, d);
    }
  }

  lemma {:induction false} FlowGraphs(objs: Objects, tcbs: seq<Id>)
    requires AreThreads(objs, tcbs)
    ensures FlowGraph(Joint(objs, tcbs)) == MayFlowGraph(objs, tcbs)
  {
    forall i: nat, j: nat ensures (i, j) in FlowGraph(Joint(objs, tcbs)) <==> (i, j) in MayFlowGraph(objs, tcbs) {
      if i < |tcbs| && j < |tcbs| { FlowIsMayFlow(objs, tcbs, i, j); }
    }
    assert forall e :: e in FlowGraph(Joint(objs, tcbs)) <==> (e.0, e.1) in FlowGraph(Joint(objs, tcbs));
    assert forall e :: e in MayFlowGraph(objs, tcbs) <==> (e.0, e.1) in MayFlowGraph(objs, tcbs);
  }

  /**
   Thread `i` ends up with a cap if it, or a thread from which a path of leaks leads to it, reaches a CNode that holds
   it.
   */
  ghost predicate EndsUpWith(objs: Objects, tcbs: seq<Id>, i: nat, c: Cap)
    requires AreThreads(objs, tcbs) && i < |tcbs|
  {
    Holds(objs, tcbs[i], c) || exists j :: 0 <= j < |tcbs| && Reaches(MayLeakGraph(objs, tcbs), j, i)
                                   && Holds(objs, tcbs[j], c)
  }

  /**
   `leakMatrix` from the objects themselves: authority is reachability over the leaks that reachable CNodes allow, every
   thread is saturated along it, and information flows along any path of shared authority, taken both ways, and of
   direct flows over caps that threads hold or have mapped.
   */
  method AnalyseModel(objs: Objects, tcbs: seq<Id>)
    returns (auth: array2<bool>, info: array2<bool>, saturated: seq<Thread>)
    requires AreThreads(objs, tcbs)
    ensures IsClosureOf(Edges(auth), MayLeakGraph(objs, tcbs))
    ensures |saturated| == |tcbs|
    ensures forall i, c: Cap :: 0 <= i < |tcbs| && !c.CNodeCap? ==>
                (c in saturated[i].caps <==> EndsUpWith(objs, tcbs, i, c))
    ensures forall i: nat, j: nat ::
      (i, j) in Edges(info) <==>
        i != j && Reaches(Symmetric(Edges(auth)) + MayFlowGraph(objs, tcbs), i, j)
  {
    var ts := CSpaces(objs, tcbs);
    LeakGraphs(objs, tcbs);
    FlowGraphs(objs, tcbs);
    auth, info, saturated := LeakMatrix(ts, VSpaces(objs, tcbs));
    forall i | 0 <= i < |tcbs|
      ensures forall c: Cap :: !c.CNodeCap? ==> (c in ts[i].caps <==> Holds(objs, tcbs[i], c))
    {
      CollectedIsHeld(objs, tcbs, i);
    }
  }

  /** A thread without a page directory cap, such as one whose VSpace starts with a PML4, has no frames collected. */
  lemma {:induction false} UpperRootHidesFrames(objs: Objects, t: Id)
    requires WellFormed(VSpace, objs) && t in objs && objs[t].TCB?
    requires forall c :: c in objs[t].slots ==> !c.PageDirectoryCap?
    ensures Collect(VSpace, objs, t) == [] && forall c :: !Maps(objs, t, c)
  {
    NoRoots(VSpace, objs[t].slots);
  }

  lemma {:induction false} NoRoots(s: Space, caps: seq<Cap>)
    requires forall c :: c in caps ==> !IsRoot(s, c)
    ensures RootsOf(s, caps) == []
  {
    if caps != [] { NoRoots(s, caps[1..]); }
  }
}
