/**
 Authority and information flow between threads: which thread can pass caps or information to which
 directly, what follows by closure, and which caps every thread can end up with.
 */
module Stcc {
  import opened Caps
  import opened CapGraph
  import opened Closure

  /** A thread with the caps in its CSpace. */
  datatype Thread = Thread(id: Id, caps: set<Cap>)

  predicate DistinctThreads(ts: seq<Thread>) {
    forall i, j :: 0 <= i < j < |ts| ==> ts[i].id != ts[j].id
  }

  // ----- projections -----

  function ProjectTCB(caps: set<Cap>): set<Id> { set c | c in caps && c.TcbCap? :: c.id }

  function ProjectCNode(caps: set<Cap>): set<Id> { set c | c in caps && c.CNodeCap? :: c.id }

  function ProjectEndpoint(caps: set<Cap>): set<(Right, Id)> {
    set c, r | c in caps && c.EndpointCap? && r in c.rights :: (r, c.id)
  }

  function ProjectNtfn(caps: set<Cap>): set<(Right, Id)> {
    set c, r | c in caps && c.NotificationCap? && r in c.rights :: (r, c.id)
  }

  /** Only cached frame caps without ASID and mapping. */
  function ProjectFrame(caps: set<Cap>): set<(Right, Id)> {
    set c, r | c in caps && c.FrameCap? && c.asid.None? && c.cached && c.mapping.None? && r in c.rights :: (r, c.id)
  }

  function WithRight(s: set<(Right, Id)>, r: Right): set<Id> { set e | e in s && e.0 == r :: e.1 }

  predicate GrantReadOverlap(a: set<(Right, Id)>, b: set<(Right, Id)>) {
    WithRight(a, Grant) * WithRight(b, Read) != {}
  }

  predicate WriteReadOverlap(a: set<(Right, Id)>, b: set<(Right, Id)>) {
    WithRight(a, Write) * WithRight(b, Read) != {}
  }

  predicate SharesCSpace(a: set<Id>, b: set<Id>) { a * b != {} }

  // ----- direct connections and flows -----

  /** The pairs one comparison contributes. */
  function Pairs(x: Id, y: Id, inCon: bool, outCon: bool): seq<(Id, Id)> {
    (if outCon then [(x, y)] else []) + (if inCon then [(y, x)] else [])
  }

  function ConnectionPairs(t: Thread, u: Thread): seq<(Id, Id)> {
    var share := SharesCSpace(ProjectCNode(t.caps), ProjectCNode(u.caps));
    var outCon := share || u.id in ProjectTCB(t.caps)
        || GrantReadOverlap(ProjectEndpoint(t.caps), ProjectEndpoint(u.caps));
    var inCon := share || t.id in ProjectTCB(u.caps)
        || GrantReadOverlap(ProjectEndpoint(u.caps), ProjectEndpoint(t.caps));
    Pairs(t.id, u.id, inCon, outCon)
  }

  function FlowPairs(t: Thread, u: Thread): seq<(Id, Id)> {
    var endpointFlow :=
      || WriteReadOverlap(ProjectEndpoint(t.caps), ProjectEndpoint(u.caps))
      || WriteReadOverlap(ProjectEndpoint(u.caps), ProjectEndpoint(t.caps));
    var outCon := endpointFlow || WriteReadOverlap(ProjectFrame(t.caps), ProjectFrame(u.caps))
                  || WriteReadOverlap(ProjectNtfn(t.caps), ProjectNtfn(u.caps));
    var inCon := endpointFlow || WriteReadOverlap(ProjectFrame(u.caps), ProjectFrame(t.caps))
                 || WriteReadOverlap(ProjectNtfn(u.caps), ProjectNtfn(t.caps));
    Pairs(t.id, u.id, inCon, outCon)
  }

  /** `foldr f []` over the threads after the first one: later threads contribute first. */
  function Compare(t: Thread, ts: seq<Thread>, f: (Thread, Thread) -> seq<(Id, Id)>): seq<(Id, Id)> {
    if ts == [] then [] else Compare(t, ts[1..], f) + f(t, ts[0])
  }

  function CompareAll(ts: seq<Thread>, f: (Thread, Thread) -> seq<(Id, Id)>): seq<(Id, Id)> {
    if ts == [] then [] else Compare(ts[0], ts[1..], f) + CompareAll(ts[1..], f)
  }

  /** `directTCBConnections` and `directTCBFlows`. */
  function DirectTCBConnections(ts: seq<Thread>): seq<(Id, Id)> { CompareAll(ts, ConnectionPairs) }

  function DirectTCBFlows(ts: seq<Thread>): seq<(Id, Id)> { CompareAll(ts, FlowPairs) }

  /** What the connections mean: `t` can hand caps to `u`. */
  predicate CanLeak(t: Thread, u: Thread) {
    || (exists c, d :: c in t.caps && d in u.caps && c.CNodeCap? && d.CNodeCap? && c.id == d.id)
    || (exists c :: c in t.caps && c.TcbCap? && c.id == u.id)
    || (exists c, d :: c in t.caps && d in u.caps && c.EndpointCap? && d.EndpointCap? && c.id == d.id
                       && Grant in c.rights && Read in d.rights)
  }

  predicate PlainFrame(c: Cap) { c.FrameCap? && c.asid.None? && c.cached && c.mapping.None? }

  predicate WritesTo(t: Thread, u: Thread) {
    exists c, d :: c in t.caps && d in u.caps
      && ((c.NotificationCap? && d.NotificationCap?) || (PlainFrame(c) && PlainFrame(d)))
      && c.id == d.id && Write in c.rights && Read in d.rights
  }

  predicate CallsTo(t: Thread, u: Thread) {
    exists c, d :: c in t.caps && d in u.caps && c.EndpointCap? && d.EndpointCap? && c.id == d.id
      && Write in c.rights && Read in d.rights
  }

  /** Information can pass from `t` to `u`; over an endpoint it passes both ways. */
  predicate CanFlow(t: Thread, u: Thread) {
    CallsTo(t, u) || CallsTo(u, t) || WritesTo(t, u)
  }

  lemma {:induction false} EndpointOverlap(a: set<Cap>, b: set<Cap>, r: Right)
    ensures WithRight(ProjectEndpoint(a), r) * WithRight(ProjectEndpoint(b), Read) != {} <==>
            exists c, d :: c in a && d in b && c.EndpointCap? && d.EndpointCap? && c.id == d.id && r in c.rights
                && Read in d.rights
  {
    if x :| x in WithRight(ProjectEndpoint(a), r) * WithRight(ProjectEndpoint(b), Read) {
      assert (r, x) in ProjectEndpoint(a) && (Read, x) in ProjectEndpoint(b);
    }
    if c, d :| c in a && d in b && c.EndpointCap? && d.EndpointCap? && c.id == d.id && r in c.rights
                && Read in d.rights
    {
      assert (r, c.id) in ProjectEndpoint(a) && (Read, d.id) in ProjectEndpoint(b);
      assert c.id in WithRight(ProjectEndpoint(a), r) * WithRight(ProjectEndpoint(b), Read);
    }
  }

  lemma {:induction false} NtfnOverlap(a: set<Cap>, b: set<Cap>)
    ensures WriteReadOverlap(ProjectNtfn(a), ProjectNtfn(b)) <==>
            exists c, d :: c in a && d in b && c.NotificationCap? && d.NotificationCap? && c.id == d.id
                && Write in c.rights && Read in d.rights
  {
    if x :| x in WithRight(ProjectNtfn(a), Write) * WithRight(ProjectNtfn(b), Read) {
      assert (Write, x) in ProjectNtfn(a) && (Read, x) in ProjectNtfn(b);
    }
    if c, d :| c in a && d in b && c.NotificationCap? && d.NotificationCap? && c.id == d.id && Write in c.rights
                && Read in d.rights
    {
      assert (Write, c.id) in ProjectNtfn(a) && (Read, d.id) in ProjectNtfn(b);
      assert c.id in WithRight(ProjectNtfn(a), Write) * WithRight(ProjectNtfn(b), Read);
    }
  }

  lemma {:induction false} FrameOverlap(a: set<Cap>, b: set<Cap>)
    ensures WriteReadOverlap(ProjectFrame(a), ProjectFrame(b)) <==>
            exists c, d :: c in a && d in b && PlainFrame(c) && PlainFrame(d) && c.id == d.id && Write in c.rights
                && Read in d.rights
  {
    if x :| x in WithRight(ProjectFrame(a), Write) * WithRight(ProjectFrame(b), Read) {
      assert (Write, x) in ProjectFrame(a) && (Read, x) in ProjectFrame(b);
    }
    if c, d :| c in a && d in b && PlainFrame(c) && PlainFrame(d) && c.id == d.id && Write in c.rights
                && Read in d.rights
    {
      assert (Write, c.id) in ProjectFrame(a) && (Read, d.id) in ProjectFrame(b);
      assert c.id in WithRight(ProjectFrame(a), Write) * WithRight(ProjectFrame(b), Read);
    }
  }

  lemma {:induction false} ShareMeaning(a: set<Cap>, b: set<Cap>)
    ensures SharesCSpace(ProjectCNode(a), ProjectCNode(b)) <==>
            exists c, d :: c in a && d in b && c.CNodeCap? && d.CNodeCap? && c.id == d.id
  {
    if c, d :| c in a && d in b && c.CNodeCap? && d.CNodeCap? && c.id == d.id {
      assert c.id in ProjectCNode(a) * ProjectCNode(b);
    }
    if x :| x in ProjectCNode(a) * ProjectCNode(b) {
      assert x in ProjectCNode(a) && x in ProjectCNode(b);
    }
  }

  lemma {:induction false} ConnectionMeaning(t: Thread, u: Thread, x: Id, y: Id)
    ensures (x, y) in ConnectionPairs(t, u) <==>
            (x == t.id && y == u.id && CanLeak(t, u)) || (x == u.id && y == t.id && CanLeak(u, t))
  {
    ShareMeaning(t.caps, u.caps);
    ShareMeaning(u.caps, t.caps);
    EndpointOverlap(t.caps, u.caps, Grant);
    EndpointOverlap(u.caps, t.caps, Grant);
  }

  lemma {:induction false} FlowMeaning(t: Thread, u: Thread, x: Id, y: Id)
    ensures (x, y) in FlowPairs(t, u) <==>
            (x == t.id && y == u.id && CanFlow(t, u)) || (x == u.id && y == t.id && CanFlow(u, t))
  {
    EndpointOverlap(t.caps, u.caps, Write);
    EndpointOverlap(u.caps, t.caps, Write);
    WritesMeaning(t, u);
    WritesMeaning(u, t);
  }

  lemma {:induction false} WritesMeaning(t: Thread, u: Thread)
    ensures WritesTo(t, u) <==>
            || WriteReadOverlap(ProjectFrame(t.caps), ProjectFrame(u.caps))
            || WriteReadOverlap(ProjectNtfn(t.caps), ProjectNtfn(u.caps))
  {
    FrameOverlap(t.caps, u.caps);
    NtfnOverlap(t.caps, u.caps);
  }

  lemma {:induction false} CompareMember(t: Thread, ts: seq<Thread>, f: (Thread, Thread) -> seq<(Id, Id)>, e: (Id, Id))
    ensures e in Compare(t, ts, f) <==> exists j :: 0 <= j < |ts| && e in f(t, ts[j])
    decreases |ts|
  {
    if ts != [] {
      CompareMember(t, ts[1..], f, e);
      if e in Compare(t, ts[1..], f) {
        var j :| 0 <= j < |ts[1..]| && e in f(t, ts[1..][j]);
        assert e in f(t, ts[j + 1]);
      }
    }
  }

  lemma {:induction false} CompareAllMember(ts: seq<Thread>, f: (Thread, Thread) -> seq<(Id, Id)>, e: (Id, Id))
    ensures e in CompareAll(ts, f) <==> exists i, j :: 0 <= i < j < |ts| && e in f(ts[i], ts[j])
    decreases |ts|
  {
    if ts != [] {
      CompareMember(ts[0], ts[1..], f, e);
      CompareAllMember(ts[1..], f, e);
      if e in CompareAll(ts[1..], f) {
        var i, j :| 0 <= i < j < |ts[1..]| && e in f(ts[1..][i], ts[1..][j]);
        assert e in f(ts[i + 1], ts[j + 1]);
      }
      if e in Compare(ts[0], ts[1..], f) {
        var j :| 0 <= j < |ts[1..]| && e in f(ts[0], ts[1..][j]);
        assert e in f(ts[0], ts[j + 1]);
      }
      if i, j :| 0 <= i < j < |ts| && e in f(ts[i], ts[j]) {
        if i == 0 {
          assert ts[1..][j - 1] == ts[j];
        } else {
          assert ts[1..][i - 1] == ts[i] && ts[1..][j - 1] == ts[j];
        }
      }
    }
  }

  /** The direct connections are exactly the pairs of different threads of which one can leak caps to the other. */
  lemma {:induction false} ConnectionsExact(ts: seq<Thread>, a: nat, b: nat)
    requires DistinctThreads(ts) && a < |ts| && b < |ts|
    ensures (ts[a].id, ts[b].id) in DirectTCBConnections(ts) <==> a != b && CanLeak(ts[a], ts[b])
  {
    var e := (ts[a].id, ts[b].id);
    CompareAllMember(ts, ConnectionPairs, e);
    forall i, j | 0 <= i < j < |ts|
      ensures e in ConnectionPairs(ts[i], ts[j])
         <==> (a == i && b == j && CanLeak(ts[a], ts[b])) || (a == j && b == i && CanLeak(ts[a], ts[b]))
    {
      ConnectionMeaning(ts[i], ts[j], e.0, e.1);
      assert (ts[a].id == ts[i].id <==> a == i) && (ts[a].id == ts[j].id <==> a == j);
      assert (ts[b].id == ts[i].id <==> b == i) && (ts[b].id == ts[j].id <==> b == j);
    }
    if a < b { assert e in ConnectionPairs(ts[a], ts[b]) <==> CanLeak(ts[a], ts[b]); }
    if b < a { assert e in ConnectionPairs(ts[b], ts[a]) <==> CanLeak(ts[a], ts[b]); }
  }

  lemma {:induction false} FlowsExact(ts: seq<Thread>, a: nat, b: nat)
    requires DistinctThreads(ts) && a < |ts| && b < |ts|
    ensures (ts[a].id, ts[b].id) in DirectTCBFlows(ts) <==> a != b && CanFlow(ts[a], ts[b])
  {
    var e := (ts[a].id, ts[b].id);
    CompareAllMember(ts, FlowPairs, e);
    forall i, j | 0 <= i < j < |ts|
      ensures e in FlowPairs(ts[i], ts[j])
         <==> (a == i && b == j && CanFlow(ts[a], ts[b])) || (a == j && b == i && CanFlow(ts[a], ts[b]))
    {
      FlowMeaning(ts[i], ts[j], e.0, e.1);
      assert (ts[a].id == ts[i].id <==> a == i) && (ts[a].id == ts[j].id <==> a == j);
      assert (ts[b].id == ts[i].id <==> b == i) && (ts[b].id == ts[j].id <==> b == j);
    }
    if a < b { assert e in FlowPairs(ts[a], ts[b]) <==> CanFlow(ts[a], ts[b]); }
    if b < a { assert e in FlowPairs(ts[b], ts[a]) <==> CanFlow(ts[a], ts[b]); }
  }

  /** Both lists only name threads of the list. */
  lemma {:induction false} PairsNameThreads(ts: seq<Thread>, e: (Id, Id))
    requires e in DirectTCBConnections(ts) || e in DirectTCBFlows(ts)
    ensures exists i, j :: 0 <= i < |ts| && 0 <= j < |ts| && e == (ts[i].id, ts[j].id)
  {
    if e in DirectTCBConnections(ts) {
      CompareAllMember(ts, ConnectionPairs, e);
      var i, j :| 0 <= i < j < |ts| && e in ConnectionPairs(ts[i], ts[j]);
      assert e == (ts[i].id, ts[j].id) || e == (ts[j].id, ts[i].id);
    } else {
      CompareAllMember(ts, FlowPairs, e);
      var i, j :| 0 <= i < j < |ts| && e in FlowPairs(ts[i], ts[j]);
      assert e == (ts[i].id, ts[j].id) || e == (ts[j].id, ts[i].id);
    }
  }
}
