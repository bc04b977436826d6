/**
 The bit matrix and the in-place transitive closure on it.
 */
module Closure {

  /** The pairs a square matrix connects. */
  type Graph = set<(nat, nat)>

  function Edges(m: array2<bool>): (g: Graph)
    reads m
    ensures forall i: nat, j: nat :: (i, j) in g <==> i < m.Length0 && j < m.Length1 && m[i, j]
  {
    set i: nat, j: nat | i < m.Length0 && j < m.Length1 && m[i, j] :: (i, j)
  }

  predicate Square(m: array2<bool>) { m.Length0 == m.Length1 }

  predicate Within(g: Graph, n: nat) {
    forall e | e in g :: e.0 < n && e.1 < n
  }

  // ----- paths -----

  /** A walk along edges, with at least one step. */
  predicate Path(g: Graph, p: seq<nat>) {
    |p| >= 2 && forall t :: 0 <= t < |p| - 1 ==> (p[t], p[t + 1]) in g
  }

  predicate PathFrom(g: Graph, p: seq<nat>, i: nat, j: nat) {
    Path(g, p) && p[0] == i && p[|p| - 1] == j
  }

  /** `j` is reached from `i` in one or more steps. */
  ghost predicate Reaches(g: Graph, i: nat, j: nat) {
    exists p :: PathFrom(g, p, i, j)
  }

  lemma {:induction false} JoinPaths(g: Graph, p: seq<nat>, q: seq<nat>, i: nat, k: nat, j: nat)
    requires PathFrom(g, p, i, k) && PathFrom(g, q, k, j)
    ensures PathFrom(g, p + q[1..], i, j)
  {
    var r := p + q[1..];
    forall t | 0 <= t < |r| - 1 ensures (r[t], r[t + 1]) in g {
      if t < |p| - 1 {
        assert r[t] == p[t] && r[t + 1] == p[t + 1];
      } else {
        assert r[t] == q[t - |p| + 1] && r[t + 1] == q[t - |p| + 2];
      }
    }
  }

  lemma {:induction false} ReachesTransitive(g: Graph, i: nat, k: nat, j: nat)
    requires Reaches(g, i, k) && Reaches(g, k, j)
    ensures Reaches(g, i, j)
  {
    var p :| PathFrom(g, p, i, k);
    var q :| PathFrom(g, q, k, j);
    JoinPaths(g, p, q, i, k, j);
  }

  lemma {:induction false} EdgeReaches(g: Graph, i: nat, j: nat)
    requires (i, j) in g
    ensures Reaches(g, i, j)
  {
    assert PathFrom(g, [i, j], i, j);
  }

  // ----- the recurrence Warshall's algorithm computes -----

  /** `j` is reached from `i` through intermediate nodes below `k` only. */
  predicate Via(g: Graph, i: nat, j: nat, k: nat)
    decreases k
  {
    if k == 0 then (i, j) in g
    else Via(g, i, j, k - 1) || (Via(g, i, k - 1, k - 1) && Via(g, k - 1, j, k - 1))
  }

  lemma {:induction false} ViaReaches(g: Graph, i: nat, j: nat, k: nat)
    requires Via(g, i, j, k)
    ensures Reaches(g, i, j)
    decreases k
  {
    if k == 0 {
      EdgeReaches(g, i, j);
    } else if Via(g, i, j, k - 1) {
      ViaReaches(g, i, j, k - 1);
    } else {
      ViaReaches(g, i, k - 1, k - 1);
      ViaReaches(g, k - 1, j, k - 1);
      ReachesTransitive(g, i, k - 1, j);
    }
  }

  predicate InnerBelow(p: seq<nat>, k: nat) {
    forall t :: 0 < t < |p| - 1 ==> p[t] < k
  }

  lemma {:induction false} FirstInnerBelow(p: seq<nat>, k: nat)
    requires |p| > 2 && InnerBelow(p, k)
    ensures p[1] < k
  {
  }

  /**
   A path with inner nodes below `k` is found by the recurrence: cut it at the first and the last visit of `k - 1`.
   */
  lemma {:induction false} PathVia(g: Graph, p: seq<nat>, i: nat, j: nat, k: nat)
    requires PathFrom(g, p, i, j) && InnerBelow(p, k)
    ensures Via(g, i, j, k)
    decreases k, |p|
  {
    if k == 0 {
      if |p| > 2 {
        FirstInnerBelow(p, k);
        assert false;
      }
      assert |p| == 2;
      assert (p[0], p[1]) in g;
    } else if t :| 0 < t < |p| - 1 && p[t] == k - 1 {
      var a := FirstInner(p, k - 1, t);
      var b := LastInner(p, k - 1, t);
      PathVia(g, p[..a + 1], i, k - 1, k - 1);
      PathVia(g, p[b..], k - 1, j, k - 1);
    } else {
      PathVia(g, p, i, j, k - 1);
    }
  }

  lemma {:induction false} FirstInner(p: seq<nat>, v: nat, t: nat) returns (a: nat)
    requires 0 < t < |p| - 1 && p[t] == v
    ensures 0 < a <= t && p[a] == v && forall s :: 0 < s < a ==> p[s] != v
    decreases t
  {
    if s :| 0 < s < t && p[s] == v {
      a := FirstInner(p, v, s);
    } else {
      a := t;
    }
  }

  lemma {:induction false} LastInner(p: seq<nat>, v: nat, t: nat) returns (b: nat)
    requires 0 < t < |p| - 1 && p[t] == v
    ensures t <= b < |p| - 1 && p[b] == v && forall s :: b < s < |p| - 1 ==> p[s] != v
    decreases |p| - t
  {
    if s :| t < s < |p| - 1 && p[s] == v {
      b := LastInner(p, v, s);
    } else {
      b := t;
    }
  }

  /** With all nodes allowed in between, the recurrence is reachability. */
  lemma {:induction false} ViaIsReachability(g: Graph, n: nat, i: nat, j: nat)
    requires Within(g, n)
    ensures Via(g, i, j, n) <==> Reaches(g, i, j)
  {
    if Via(g, i, j, n) { ViaReaches(g, i, j, n); }
    if Reaches(g, i, j) {
      var p :| PathFrom(g, p, i, j);
      forall t | 0 < t < |p| - 1 ensures p[t] < n { assert (p[t], p[t + 1]) in g; }
      PathVia(g, p, i, j, n);
    }
  }

  // ----- the matrix operations -----

  /** `newEmptyMatrix`. */
  method NewEmptyMatrix(n: nat) returns (m: array2<bool>)
    ensures fresh(m) && m.Length0 == n && m.Length1 == n && Edges(m) == {}
  {
    m := new bool[n, n]((_, _) => false);
  }

  method Connect(m: array2<bool>, i: nat, j: nat)
    requires i < m.Length0 && j < m.Length1
    modifies m
    ensures forall x, y :: 0 <= x < m.Length0 && 0 <= y < m.Length1 ==> m[x, y] == (old(m[x, y]) || (x == i && y == j))
    ensures Edges(m) == old(Edges(m)) + {(i, j)}
  {
    m[i, j] := true;
  }

  method Disconnect(m: array2<bool>, i: nat, j: nat)
    requires i < m.Length0 && j < m.Length1
    modifies m
    ensures forall x, y :: 0 <= x < m.Length0 && 0 <= y < m.Length1 ==> m[x, y] == (old(m[x, y]) && !(x == i && y == j))
  {
    m[i, j] := false;
  }

  /** Rows before `i`, and row `i` before column `j`, have seen node `k`; the others have not. */
  ghost predicate Swept(m: array2<bool>, g: Graph, k: nat, i: nat, j: nat)
    reads m
  {
    forall x: nat, y: nat :: x < m.Length0 && y < m.Length1 ==>
      m[x, y] == Via(g, x, y, if x < i || (x == i && y < j) then k + 1 else k)
  }

  /** The innermost statement: although the row and column of `k` may already be updated, they read the same. */
  method SweepCell(m: array2<bool>, ghost g: Graph, k: nat, i: nat, j: nat)
    requires Square(m) && k < m.Length0 && i < m.Length0 && j < m.Length1 && Swept(m, g, k, i, j)
    modifies m
    ensures Swept(m, g, k, i, j + 1)
  {
    var mij, mik, mkj := m[i, j], m[i, k], m[k, j];
    assert mik == Via(g, i, k, k) && mkj == Via(g, k, j, k);
    if mij || (mik && mkj) {
      Connect(m, i, j);
    }
  }

  /** `warshall`: the matrix becomes reachability in one or more steps. */
  method Warshall(m: array2<bool>)
    requires Square(m)
    modifies m
    ensures forall i: nat, j: nat :: (i, j) in Edges(m) <==> Reaches(old(Edges(m)), i, j)
  {
    ghost var g := Edges(m);
    var n := m.Length0;
    for k := 0 to n
      invariant Swept(m, g, k, 0, 0)
    {
      for i := 0 to n
        invariant Swept(m, g, k, i, 0)
      {
        for j := 0 to n
          invariant Swept(m, g, k, i, j)
        {
          SweepCell(m, g, k, i, j);
        }
      }
    }
    forall i: nat, j: nat ensures (i, j) in Edges(m) <==> Reaches(g, i, j) {
      ViaIsReachability(g, n, i, j);
      ReachesWithin(g, n, i, j);
    }
  }

  lemma {:induction false} ReachesWithin(g: Graph, n: nat, i: nat, j: nat)
    requires Within(g, n)
    ensures Reaches(g, i, j) ==> i < n && j < n
  {
    if Reaches(g, i, j) {
      var p :| PathFrom(g, p, i, j);
      assert (p[0], p[1]) in g && (p[|p| - 2], p[|p| - 1]) in g;
    }
  }

  /** `authSharingFlows`: everything connected in one matrix is connected both ways in the other. */
  method AuthSharingFlows(from: array2<bool>, to: array2<bool>)
    requires Square(from) && Square(to) && from.Length0 == to.Length0 && from != to
    modifies to
    ensures Edges(to) == old(Edges(to)) + Symmetric(Edges(from))
  {
    var n := from.Length0;
    for i := 0 to n
      invariant forall x: nat, y: nat :: x < n && y < n ==>
        to[x, y] == (old(to[x, y]) || (x < i && from[x, y]) || (y < i && from[y, x]))
    {
      for j := 0 to n
        invariant forall x: nat, y: nat :: x < n && y < n ==>
          to[x, y] == (old(to[x, y])
                       || ((x < i || (x == i && y < j)) && from[x, y])
                       || ((y < i || (y == i && x < j)) && from[y, x]))
      {
        if from[i, j] {
          Connect(to, i, j);
          Connect(to, j, i);
        }
      }
    }
  }

  function Symmetric(g: Graph): Graph {
    g + set e | e in g :: (e.1, e.0)
  }

  /** `removeReflexive`. */
  method RemoveReflexive(m: array2<bool>)
    requires Square(m)
    modifies m
    ensures forall i: nat, j: nat :: (i, j) in Edges(m) <==> (i, j) in old(Edges(m)) && i != j
  {
    var n := m.Length0;
    for i := 0 to n
      invariant forall x: nat, y: nat :: x < n && y < n ==> m[x, y] == (old(m[x, y]) && !(x == y && x < i))
    {
      Disconnect(m, i, i);
    }
  }
}
