/**
 Saturating every thread's cap set along the closed matrix, and the whole analysis: build the matrices,
 close them, saturate.
 */
module Saturation {
  import opened Caps
  import opened CapGraph
  import opened Closure
  import opened Stcc

  /** The dictionary from thread to matrix index. */
  function Dictionary(ts: seq<Thread>): (d: map<Id, nat>)
    decreases |ts|
  {
    if ts == [] then map[] else Dictionary(ts[..|ts| - 1])[ts[|ts| - 1].id := |ts| - 1]
  }

  lemma {:induction false} DictionaryExact(ts: seq<Thread>)
    requires DistinctThreads(ts)
    ensures forall i :: 0 <= i < |ts| ==> ts[i].id in Dictionary(ts) && Dictionary(ts)[ts[i].id] == i
    ensures forall x :: x in Dictionary(ts) ==> exists i :: 0 <= i < |ts| && ts[i].id == x
    decreases |ts|
  {
    if ts != [] {
      var n := |ts| - 1;
      DictionaryExact(ts[..n]);
      assert forall i :: 0 <= i < n ==> ts[..n][i] == ts[i];
      forall x | x in Dictionary(ts) ensures exists i :: 0 <= i < |ts| && ts[i].id == x {
        if x != ts[n].id {
          var i :| 0 <= i < |ts[..n]| && ts[..n][i].id == x;
          assert ts[i].id == x;
        }
      }
    }
  }

  /** The dictionary knows every thread. */
  predicate Knows(d: map<Id, nat>, ts: seq<Thread>) {
    forall i :: 0 <= i < |ts| ==> ts[i].id in d
  }

  predicate IsLeak(g: Graph, d: map<Id, nat>, x: Id, y: Id)
    requires x in d && y in d
  {
    (d[x], d[y]) in g
  }

  /** `f`: thread `t` also gets what `u` has, if `u` leaks to it. */
  function Absorb(g: Graph, d: map<Id, nat>, t: Thread, u: Thread): Thread
    requires t.id in d && u.id in d
  {
    if IsLeak(g, d, u.id, t.id) then t.(caps := t.caps + u.caps) else t
  }

  /** `foldM f tcb tcbs`. */
  function AbsorbAll(g: Graph, d: map<Id, nat>, t: Thread, us: seq<Thread>): (r: Thread)
    requires t.id in d && Knows(d, us)
    ensures r.id == t.id
    decreases |us|
  {
    if us == [] then t else AbsorbAll(g, d, Absorb(g, d, t, us[0]), us[1..])
  }

  /** `mapM (flip f tcb) tcbs`. */
  function Spread(g: Graph, d: map<Id, nat>, t: Thread, us: seq<Thread>): (r: seq<Thread>)
    requires t.id in d && Knows(d, us)
    ensures |r| == |us| && Knows(d, r)
    ensures forall i :: 0 <= i < |us| ==> r[i] == Absorb(g, d, us[i], t)
  {
    if us == [] then [] else [Absorb(g, d, us[0], t)] + Spread(g, d, t, us[1..])
  }

  /** `saturateCSpaces`. */
  function Saturate(g: Graph, d: map<Id, nat>, ts: seq<Thread>): (r: seq<Thread>)
    requires Knows(d, ts)
    ensures |r| == |ts|
    decreases |ts|
  {
    if ts == [] then []
    else [AbsorbAll(g, d, ts[0], ts[1..])] + Saturate(g, d, Spread(g, d, ts[0], ts[1..]))
  }

  ghost predicate Transitive(g: Graph) {
    forall i, k, j :: (i, k) in g && (k, j) in g ==> (i, j) in g
  }

  /** What leaks from `j` over `k` to `i` leaks from `j` to `i`, for the threads before which `j` is taken up. */
  ghost predicate Shortcut(g: Graph, d: map<Id, nat>, ts: seq<Thread>, j: nat, k: nat, i: nat)
    requires Knows(d, ts) && j < |ts| && k < |ts| && i < |ts|
  {
    j < k && j < i && k != i && IsLeak(g, d, ts[j].id, ts[k].id) && IsLeak(g, d, ts[k].id, ts[i].id)
    ==> IsLeak(g, d, ts[j].id, ts[i].id)
  }

  /** The part of transitivity that the triangular recursion depends on. */
  ghost predicate Triangular(g: Graph, d: map<Id, nat>, ts: seq<Thread>)
    requires Knows(d, ts)
  {
    forall j: nat, k: nat, i: nat :: j < |ts| && k < |ts| && i < |ts| ==> Shortcut(g, d, ts, j, k, i)
  }

  lemma {:induction false} AbsorbAllExact(g: Graph, d: map<Id, nat>, t: Thread, us: seq<Thread>, c: Cap)
    requires t.id in d && Knows(d, us)
    ensures c in AbsorbAll(g, d, t, us).caps <==>
            c in t.caps || exists i :: 0 <= i < |us| && IsLeak(g, d, us[i].id, t.id) && c in us[i].caps
    decreases |us|
  {
    if us != [] {
      AbsorbAllExact(g, d, Absorb(g, d, t, us[0]), us[1..], c);
      assert forall i :: 0 < i < |us| ==> us[i] == us[1..][i - 1];
    }
  }

  /** What thread `i` can get from the first `n` threads, besides its own caps. */
  ghost predicate Gets(g: Graph, d: map<Id, nat>, ts: seq<Thread>, n: nat, i: nat, c: Cap)
    requires Knows(d, ts) && n <= |ts| && i < |ts|
  {
    c in ts[i].caps || exists j :: 0 <= j < n && IsLeak(g, d, ts[j].id, ts[i].id) && c in ts[j].caps
  }

  /**
   After `k` rounds the remaining threads hold their own caps and those of the first `k` threads that leak to them.
   */
  ghost predicate Partly(g: Graph, d: map<Id, nat>, orig: seq<Thread>, k: nat, cur: seq<Thread>)
    requires Knows(d, orig) && k <= |orig|
  {
    && |cur| == |orig| - k && Knows(d, cur)
    && (forall m :: 0 <= m < |cur| ==> cur[m].id == orig[k + m].id)
    && (forall m, c :: 0 <= m < |cur| ==> (c in cur[m].caps <==> Gets(g, d, orig, k, k + m, c)))
  }

  lemma {:induction false} PartlyStep(g: Graph, d: map<Id, nat>, orig: seq<Thread>, k: nat, cur: seq<Thread>)
    requires Knows(d, orig) && Triangular(g, d, orig) && k < |orig| && Partly(g, d, orig, k, cur)
    ensures Partly(g, d, orig, k + 1, Spread(g, d, cur[0], cur[1..]))
  {
    var next := Spread(g, d, cur[0], cur[1..]);
    forall m | 0 <= m < |next| ensures next[m].id == orig[k + 1 + m].id {
      assert next[m] == Absorb(g, d, cur[m + 1], cur[0]);
      assert cur[m + 1].id == orig[k + (m + 1)].id;
    }
    forall m, c | 0 <= m < |next| ensures c in next[m].caps <==> Gets(g, d, orig, k + 1, k + 1 + m, c) {
      SpreadExact(g, d, orig, k, cur, m, c);
    }
  }

  /** One thread of the tail takes in the head: transitivity makes up for the head being only partly saturated. */
  lemma {:induction false} SpreadExact(g: Graph, d: map<Id, nat>, orig: seq<Thread>, k: nat, cur: seq<Thread>, m: nat,
                                       c: Cap)
    requires Knows(d, orig) && Triangular(g, d, orig) && k < |orig| && Partly(g, d, orig, k, cur) && m + 1 < |cur|
    ensures c in Absorb(g, d, cur[m + 1], cur[0]).caps <==> Gets(g, d, orig, k + 1, k + 1 + m, c)
  {
    var i := k + (m + 1);
    assert cur[m + 1].id == orig[i].id && cur[0].id == orig[k + 0].id;
    assert c in cur[m + 1].caps <==> Gets(g, d, orig, k, i, c);
    assert c in cur[0].caps <==> Gets(g, d, orig, k, k + 0, c);
    if c in cur[0].caps && IsLeak(g, d, cur[0].id, cur[m + 1].id) && c !in orig[k].caps {
      var j :| 0 <= j < k && IsLeak(g, d, orig[j].id, orig[k].id) && c in orig[j].caps;
      assert Shortcut(g, d, orig, j, k, i);
    }
  }

  /** The finished head of a round: it gets nothing it should not, */
  lemma {:induction false} HeadGetsOnly(g: Graph, d: map<Id, nat>, orig: seq<Thread>, k: nat, cur: seq<Thread>,
                                        c: Cap, i: nat)
    requires Knows(d, orig) && Triangular(g, d, orig) && k < |orig| && Partly(g, d, orig, k, cur)
    requires 0 < i < |cur| && IsLeak(g, d, cur[i].id, cur[0].id) && c in cur[i].caps
    ensures Gets(g, d, orig, |orig|, k, c)
  {
    assert cur[0].id == orig[k + 0].id && cur[i].id == orig[k + i].id;
    assert Gets(g, d, orig, k, k + i, c);
    if c !in orig[k + i].caps {
      var j :| 0 <= j < k && IsLeak(g, d, orig[j].id, orig[k + i].id) && c in orig[j].caps;
      assert Shortcut(g, d, orig, j, k + i, k);
    }
  }

  /** and everything it should. */
  lemma {:induction false} HeadGetsAll(g: Graph, d: map<Id, nat>, orig: seq<Thread>, k: nat, cur: seq<Thread>, c: Cap,
                                       j: nat)
    requires Knows(d, orig) && k < |orig| && Partly(g, d, orig, k, cur)
    requires j < |orig| && IsLeak(g, d, orig[j].id, orig[k].id) && c in orig[j].caps
    ensures c in cur[0].caps || (j > k && IsLeak(g, d, cur[j - k].id, cur[0].id) && c in cur[j - k].caps)
  {
    assert cur[0].id == orig[k + 0].id;
    if j > k {
      assert cur[j - k].id == orig[k + (j - k)].id;
      assert c in cur[j - k].caps <==> Gets(g, d, orig, k, k + (j - k), c);
    } else {
      assert c in cur[0].caps <==> Gets(g, d, orig, k, k + 0, c);
    }
  }

  lemma {:induction false} HeadExact(g: Graph, d: map<Id, nat>, orig: seq<Thread>, k: nat, cur: seq<Thread>, c: Cap)
    requires Knows(d, orig) && Triangular(g, d, orig) && k < |orig| && Partly(g, d, orig, k, cur)
    ensures c in AbsorbAll(g, d, cur[0], cur[1..]).caps <==> Gets(g, d, orig, |orig|, k, c)
  {
    AbsorbAllExact(g, d, cur[0], cur[1..], c);
    assert c in cur[0].caps <==> Gets(g, d, orig, k, k + 0, c);
    assert forall i :: 0 < i < |cur| ==> cur[1..][i - 1] == cur[i];
    if i :| 0 <= i < |cur[1..]| && IsLeak(g, d, cur[1..][i].id, cur[0].id) && c in cur[1..][i].caps {
      HeadGetsOnly(g, d, orig, k, cur, c, i + 1);
    }
    if j :| 0 <= j < |orig| && IsLeak(g, d, orig[j].id, orig[k].id) && c in orig[j].caps {
      HeadGetsAll(g, d, orig, k, cur, c, j);
      assert j > k ==> cur[1..][j - k - 1] == cur[j - k];
    }
  }

  lemma {:induction false} SaturateFrom(g: Graph, d: map<Id, nat>, orig: seq<Thread>, k: nat, cur: seq<Thread>,
                                        m: nat, c: Cap)
    requires Knows(d, orig) && Triangular(g, d, orig) && k <= |orig| && Partly(g, d, orig, k, cur) && m < |cur|
    ensures c in Saturate(g, d, cur)[m].caps <==> Gets(g, d, orig, |orig|, k + m, c)
    ensures Saturate(g, d, cur)[m].id == orig[k + m].id
    decreases m
  {
    if m == 0 {
      HeadExact(g, d, orig, k, cur, c);
      assert cur[0].id == orig[k + 0].id;
    } else {
      PartlyStep(g, d, orig, k, cur);
      SaturateFrom(g, d, orig, k + 1, Spread(g, d, cur[0], cur[1..]), m - 1, c);
    }
  }

  /**
   Saturation is exact on such a matrix: every thread ends up with its own caps and the original
   caps of precisely the threads that leak to it.
   */
  lemma {:induction false} SaturateExact(g: Graph, d: map<Id, nat>, ts: seq<Thread>, i: nat, c: Cap)
    requires Knows(d, ts) && Triangular(g, d, ts) && i < |ts|
    ensures Saturate(g, d, ts)[i].id == ts[i].id
    ensures c in Saturate(g, d, ts)[i].caps <==> Gets(g, d, ts, |ts|, i, c)
  {
    SaturateFrom(g, d, ts, 0, ts, i, c);
  }

  // ----- when saturation is exact -----

  /** Thread `t` has become `t'` by taking up thread `u`. */
  predicate Grown(g: Graph, d: map<Id, nat>, u: Thread, t: Thread, t': Thread)
    requires u.id in d && t.id in d
  {
    t'.id == t.id && t.caps <= t'.caps && (IsLeak(g, d, u.id, t.id) ==> u.caps <= t'.caps)
  }

  /** `next` is what is left when the first thread has been taken up. */
  ghost predicate TakenUp(g: Graph, d: map<Id, nat>, ts: seq<Thread>, next: seq<Thread>)
    requires Knows(d, ts) && ts != []
  {
    |next| == |ts| - 1 && Knows(d, next) && forall i :: 0 < i < |ts| ==> Grown(g, d, ts[0], ts[i], next[i - 1])
  }

  lemma {:induction false} SpreadTakesUp(g: Graph, d: map<Id, nat>, ts: seq<Thread>) returns (next: seq<Thread>)
    requires Knows(d, ts) && ts != []
    ensures TakenUp(g, d, ts, next) && next == Spread(g, d, ts[0], ts[1..])
  {
    next := Spread(g, d, ts[0], ts[1..]);
    forall i | 0 < i < |ts| ensures next[i - 1] == Absorb(g, d, ts[i], ts[0]) {
      assert ts[1..][i - 1] == ts[i];
    }
  }

  /** What the rest ends up with counts for the whole. */
  lemma {:induction false} SaturateRest(g: Graph, d: map<Id, nat>, ts: seq<Thread>, next: seq<Thread>, i: nat, c: Cap)
    requires Knows(d, ts) && 0 < i < |ts| && next == Spread(g, d, ts[0], ts[1..])
             && c in Saturate(g, d, next)[i - 1].caps
    ensures c in Saturate(g, d, ts)[i].caps
  {
  }

  /** The first thread takes in the caps of every thread that leaks to it, and keeps its own. */
  lemma {:induction false} SaturateFirst(g: Graph, d: map<Id, nat>, ts: seq<Thread>, a: nat, c: Cap)
    requires Knows(d, ts) && a < |ts| && c in ts[a].caps && (a == 0 || IsLeak(g, d, ts[a].id, ts[0].id))
    ensures c in Saturate(g, d, ts)[0].caps
  {
    AbsorbAllExact(g, d, ts[0], ts[1..], c);
    if a > 0 { assert ts[1..][a - 1] == ts[a]; }
  }

  /** What a thread holds it keeps. */
  lemma {:induction false} SaturateKeeps(g: Graph, d: map<Id, nat>, ts: seq<Thread>, i: nat, c: Cap)
    requires Knows(d, ts) && i < |ts| && c in ts[i].caps
    ensures c in Saturate(g, d, ts)[i].caps
    decreases i
  {
    if i == 0 {
      SaturateFirst(g, d, ts, 0, c);
    } else {
      var next := SpreadTakesUp(g, d, ts);
      assert Grown(g, d, ts[0], ts[i], next[i - 1]);
      SaturateKeeps(g, d, next, i - 1, c);
      SaturateRest(g, d, ts, next, i, c);
    }
  }

  /** What thread `a` holds reaches every thread it leaks to. */
  lemma {:induction false} SaturatePasses(g: Graph, d: map<Id, nat>, ts: seq<Thread>, a: nat, b: nat, c: Cap)
    requires Knows(d, ts) && a < |ts| && b < |ts| && a != b
    requires c in ts[a].caps && IsLeak(g, d, ts[a].id, ts[b].id)
    ensures c in Saturate(g, d, ts)[b].caps
    decreases |ts|, 1
  {
    if b == 0 {
      SaturateFirst(g, d, ts, a, c);
    } else {
      var next := SpreadTakesUp(g, d, ts);
      RestPasses(g, d, ts, next, a, b, c);
      SaturateRest(g, d, ts, next, b, c);
    }
  }

  lemma {:induction false} RestPasses(g: Graph, d: map<Id, nat>, ts: seq<Thread>, next: seq<Thread>, a: nat, b: nat,
                                      c: Cap)
    requires Knows(d, ts) && a < |ts| && 0 < b < |ts| && a != b && c in ts[a].caps
    requires IsLeak(g, d, ts[a].id, ts[b].id) && TakenUp(g, d, ts, next)
    ensures c in Saturate(g, d, next)[b - 1].caps
    decreases |ts|, 0
  {
    assert Grown(g, d, ts[0], ts[b], next[b - 1]);
    if a == 0 {
      SaturateKeeps(g, d, next, b - 1, c);
    } else {
      assert Grown(g, d, ts[0], ts[a], next[a - 1]);
      SaturatePasses(g, d, next, a - 1, b - 1, c);
    }
  }

  /** And over one other thread to a further one, if `j` is taken up before both. */
  lemma {:induction false} SaturatePassesOn(g: Graph, d: map<Id, nat>, ts: seq<Thread>, j: nat, k: nat, i: nat, c: Cap)
    requires Knows(d, ts) && j < k < |ts| && j < i < |ts| && k != i && c in ts[j].caps
    requires IsLeak(g, d, ts[j].id, ts[k].id) && IsLeak(g, d, ts[k].id, ts[i].id)
    ensures c in Saturate(g, d, ts)[i].caps
    decreases |ts|, 2
  {
    var next := SpreadTakesUp(g, d, ts);
    assert Grown(g, d, ts[0], ts[k], next[k - 1]) && Grown(g, d, ts[0], ts[i], next[i - 1]);
    RestPassesOn(g, d, ts, next, j, k, i, c);
    SaturateRest(g, d, ts, next, i, c);
  }

  lemma {:induction false} RestPassesOn(g: Graph, d: map<Id, nat>, ts: seq<Thread>, next: seq<Thread>, j: nat, k: nat,
                                        i: nat, c: Cap)
    requires Knows(d, ts) && j < k < |ts| && j < i < |ts| && k != i && c in ts[j].caps
    requires IsLeak(g, d, ts[j].id, ts[k].id) && TakenUp(g, d, ts, next)
    requires next[k - 1].id == ts[k].id && next[i - 1].id == ts[i].id && IsLeak(g, d, next[k - 1].id, next[i - 1].id)
    ensures c in Saturate(g, d, next)[i - 1].caps
    decreases |ts|, 1
  {
    if j == 0 {
      assert Grown(g, d, ts[0], ts[k], next[k - 1]);
      SaturatePasses(g, d, next, k - 1, i - 1, c);
    } else {
      LaterPassesOn(g, d, ts, next, j, k, i, c);
    }
  }

  lemma {:induction false} LaterPassesOn(g: Graph, d: map<Id, nat>, ts: seq<Thread>, next: seq<Thread>, j: nat, k: nat,
                                         i: nat, c: Cap)
    requires Knows(d, ts) && 0 < j < k < |ts| && j < i < |ts| && k != i && c in ts[j].caps
    requires IsLeak(g, d, ts[j].id, ts[k].id) && TakenUp(g, d, ts, next)
    requires next[k - 1].id == ts[k].id && next[i - 1].id == ts[i].id && IsLeak(g, d, next[k - 1].id, next[i - 1].id)
    ensures c in Saturate(g, d, next)[i - 1].caps
    decreases |ts|, 0
  {
    assert Grown(g, d, ts[0], ts[j], next[j - 1]);
    SaturatePassesOn(g, d, next, j - 1, k - 1, i - 1, c);
  }

  predicate SameThreads(ts: seq<Thread>, us: seq<Thread>) {
    |us| == |ts| && forall i :: 0 <= i < |ts| ==> us[i].id == ts[i].id
  }

  ghost predicate ExactFor(g: Graph, d: map<Id, nat>, us: seq<Thread>)
    requires Knows(d, us)
  {
    forall i: nat, c :: i < |us| ==> (c in Saturate(g, d, us)[i].caps <==> Gets(g, d, us, |us|, i, c))
  }

  /** Whatever caps the threads hold, each ends up with its own and those of the threads that leak to it. */
  ghost predicate ExactAlways(g: Graph, d: map<Id, nat>, ts: seq<Thread>)
    requires Knows(d, ts)
  {
    forall us :: SameThreads(ts, us) && Knows(d, us) ==> ExactFor(g, d, us)
  }

  /** The threads with `caps` in the hands of thread `j` alone. */
  function OnlyAt(ts: seq<Thread>, j: nat, caps: set<Cap>): (us: seq<Thread>)
    ensures SameThreads(ts, us) && forall i :: 0 <= i < |ts| ==> us[i].caps == if i == j then caps else {}
  {
    seq(|ts|, i requires 0 <= i < |ts| => Thread(ts[i].id, if i == j then caps else {}))
  }

  /** Where a shortcut is missing, a cap that thread `j` alone holds goes too far. */
  lemma {:induction false} TooFar(g: Graph, d: map<Id, nat>, ts: seq<Thread>, j: nat, k: nat, i: nat, c: Cap)
    requires Knows(d, ts) && j < |ts| && k < |ts| && i < |ts| && !Shortcut(g, d, ts, j, k, i)
    ensures var us := OnlyAt(ts, j, {c});
            Knows(d, us) && c in Saturate(g, d, us)[i].caps && !Gets(g, d, us, |us|, i, c)
  {
    SaturatePassesOn(g, d, OnlyAt(ts, j, {c}), j, k, i, c);
  }

  /** Saturation is exact for every assignment of caps to the threads if and only if no shortcut is missing. */
  lemma {:induction false} SaturateExactIff(g: Graph, d: map<Id, nat>, ts: seq<Thread>)
    requires Knows(d, ts)
    ensures ExactAlways(g, d, ts) <==> Triangular(g, d, ts)
  {
    if Triangular(g, d, ts) {
      forall us | SameThreads(ts, us) && Knows(d, us) ensures ExactFor(g, d, us) {
        SameTriangle(g, d, ts, us);
        forall i: nat, c | i < |us| ensures c in Saturate(g, d, us)[i].caps <==> Gets(g, d, us, |us|, i, c) {
          SaturateExact(g, d, us, i, c);
        }
      }
    } else {
      var j: nat, k: nat, i: nat :| j < |ts| && k < |ts| && i < |ts| && !Shortcut(g, d, ts, j, k, i);
      TooFar(g, d, ts, j, k, i, NullCap);
      assert !ExactFor(g, d, OnlyAt(ts, j, {NullCap}));
    }
  }

  lemma {:induction false} SameTriangle(g: Graph, d: map<Id, nat>, ts: seq<Thread>, us: seq<Thread>)
    requires Knows(d, ts) && Knows(d, us) && SameThreads(ts, us) && Triangular(g, d, ts)
    ensures Triangular(g, d, us)
  {
    forall j: nat, k: nat, i: nat | j < |us| && k < |us| && i < |us| ensures Shortcut(g, d, us, j, k, i) {
      assert Shortcut(g, d, ts, j, k, i);
    }
  }

  /** A closed matrix misses no shortcut. */
  lemma {:induction false} TransitiveIsTriangular(g: Graph, d: map<Id, nat>, ts: seq<Thread>)
    requires Knows(d, ts) && Transitive(g)
    ensures Triangular(g, d, ts)
  {
  }

  /** Without closure: 0 leaks to 1 and 1 to 2, but not 0 to 2; thread 2 gets what 0 holds all the same. */
  lemma {:induction false} UnclosedGoesTooFar(d: map<Id, nat>, ts: seq<Thread>, c: Cap)
    requires |ts| == 3 && Knows(d, ts) && ts[0].caps == {c} && ts[1].caps == ts[2].caps == {}
    requires d[ts[0].id] == 0 && d[ts[1].id] == 1 && d[ts[2].id] == 2
    ensures var g := {(0, 1), (1, 2)};
            c in Saturate(g, d, ts)[2].caps && !Gets(g, d, ts, 3, 2, c)
  {
    SaturatePassesOn({(0, 1), (1, 2)}, d, ts, 0, 1, 2, c);
  }

  /**
   Full transitivity is more than needed: here nothing goes too far, and nothing is missing of what leaks directly.
   */
  lemma {:induction false} TriangularIsLess(d: map<Id, nat>, ts: seq<Thread>)
    requires |ts| == 3 && Knows(d, ts) && d[ts[0].id] == 0 && d[ts[1].id] == 1 && d[ts[2].id] == 2
    ensures var g := {(2, 0), (0, 1)}; !Transitive(g) && ExactAlways(g, d, ts)
  {
    var g := {(2, 0), (0, 1)};
    assert (2, 0) in g && (0, 1) in g && (2, 1) !in g;
    SaturateExactIff(g, d, ts);
  }

  // ----- the whole analysis -----

  /** Thread `i` can leak to thread `j` directly. */
  ghost function LeakGraph(ts: seq<Thread>): Graph {
    set i: nat, j: nat | i < |ts| && j < |ts| && i != j && CanLeak(ts[i], ts[j]) :: (i, j)
  }

  ghost function FlowGraph(ts: seq<Thread>): Graph {
    set i: nat, j: nat | i < |ts| && j < |ts| && i != j && CanFlow(ts[i], ts[j]) :: (i, j)
  }

  /** `leaksTos`, also used for flows: enter a list of pairs into the matrix. */
  method LeaksTos(m: array2<bool>, d: map<Id, nat>, leaks: seq<(Id, Id)>)
    requires Square(m)
    requires forall e | e in leaks :: e.0 in d && e.1 in d && d[e.0] < m.Length0 && d[e.1] < m.Length0
    modifies m
    ensures Edges(m) == old(Edges(m)) + set e | e in leaks :: (d[e.0], d[e.1])
  {
    for k := 0 to |leaks|
      invariant Edges(m) == old(Edges(m)) + set e | e in leaks[..k] :: (d[e.0], d[e.1])
    {
      assert leaks[..k + 1] == leaks[..k] + [leaks[k]];
      Connect(m, d[leaks[k].0], d[leaks[k].1]);
    }
    assert leaks[..|leaks|] == leaks;
  }

  lemma {:induction false} PairsKnown(ts: seq<Thread>, e: (Id, Id))
    requires DistinctThreads(ts) && (e in DirectTCBConnections(ts) || e in DirectTCBFlows(ts))
    ensures var d := Dictionary(ts); e.0 in d && e.1 in d && d[e.0] < |ts| && d[e.1] < |ts|
  {
    DictionaryExact(ts);
    PairsNameThreads(ts, e);
  }

  /** The pairs entered are the leak graph. */
  lemma {:induction false} EnteredLeaks(ts: seq<Thread>)
    requires DistinctThreads(ts)
    ensures forall e | e in DirectTCBConnections(ts) ::
              var d := Dictionary(ts); e.0 in d && e.1 in d && d[e.0] < |ts| && d[e.1] < |ts|
    ensures var d := Dictionary(ts); (set e | e in DirectTCBConnections(ts) :: (d[e.0], d[e.1])) == LeakGraph(ts)
  {
    var d, leaks := Dictionary(ts), DirectTCBConnections(ts);
    DictionaryExact(ts);
    forall e | e in leaks ensures e.0 in d && e.1 in d && d[e.0] < |ts| && d[e.1] < |ts| { PairsKnown(ts, e); }
    var entered := set e | e in leaks :: (d[e.0], d[e.1]);
    forall p | p in entered ensures p in LeakGraph(ts) {
      var e :| e in leaks && p == (d[e.0], d[e.1]);
      PairsNameThreads(ts, e);
      var i, j :| 0 <= i < |ts| && 0 <= j < |ts| && e == (ts[i].id, ts[j].id);
      ConnectionsExact(ts, i, j);
    }
    forall p | p in LeakGraph(ts) ensures p in entered {
      ConnectionsExact(ts, p.0, p.1);
      assert (ts[p.0].id, ts[p.1].id) in leaks;
    }
  }

  lemma {:induction false} EnteredFlows(ts: seq<Thread>)
    requires DistinctThreads(ts)
    ensures forall e | e in DirectTCBFlows(ts) ::
              var d := Dictionary(ts); e.0 in d && e.1 in d && d[e.0] < |ts| && d[e.1] < |ts|
    ensures var d := Dictionary(ts); (set e | e in DirectTCBFlows(ts) :: (d[e.0], d[e.1])) == FlowGraph(ts)
  {
    var d, flows := Dictionary(ts), DirectTCBFlows(ts);
    DictionaryExact(ts);
    forall e | e in flows ensures e.0 in d && e.1 in d && d[e.0] < |ts| && d[e.1] < |ts| { PairsKnown(ts, e); }
    var entered := set e | e in flows :: (d[e.0], d[e.1]);
    forall p | p in entered ensures p in FlowGraph(ts) {
      var e :| e in flows && p == (d[e.0], d[e.1]);
      PairsNameThreads(ts, e);
      var i, j :| 0 <= i < |ts| && 0 <= j < |ts| && e == (ts[i].id, ts[j].id);
      FlowsExact(ts, i, j);
    }
    forall p | p in FlowGraph(ts) ensures p in entered {
      FlowsExact(ts, p.0, p.1);
      assert (ts[p.0].id, ts[p.1].id) in flows;
    }
  }

  /** The threads with their frames added, as the flow analysis sees them. */
  function WithFrames(ts: seq<Thread>, frames: seq<set<Cap>>): (r: seq<Thread>)
    requires |ts| == |frames|
    ensures |r| == |ts| && forall i :: 0 <= i < |ts| ==> r[i] == Thread(ts[i].id, frames[i] + ts[i].caps)
  {
    seq(|ts|, i requires 0 <= i < |ts| => Thread(ts[i].id, frames[i] + ts[i].caps))
  }

  /** What a matrix says after closure. */
  ghost predicate IsClosureOf(m: Graph, g: Graph) {
    forall i: nat, j: nat :: (i, j) in m <==> Reaches(g, i, j)
  }

  lemma {:induction false} ClosureTransitive(m: Graph, g: Graph)
    requires IsClosureOf(m, g)
    ensures Transitive(m)
  {
    forall i: nat, k: nat, j: nat | (i, k) in m && (k, j) in m ensures (i, j) in m {
      ReachesTransitive(g, i, k, j);
    }
  }

  /** Who ends up with which cap: the original holders among the threads with a direct-connection path. */
  ghost predicate FullySaturated(ts: seq<Thread>, result: seq<Thread>) {
    && |result| == |ts|
    && forall i, c :: 0 <= i < |ts| ==>
         (c in result[i].caps <==>
             c in ts[i].caps || exists j :: 0 <= j < |ts| && Reaches(LeakGraph(ts), j, i) && c in ts[j].caps)
  }

  lemma {:induction false} SaturatedByClosure(ts: seq<Thread>, m: Graph)
    requires DistinctThreads(ts) && IsClosureOf(m, LeakGraph(ts))
    ensures Knows(Dictionary(ts), ts) && FullySaturated(ts, Saturate(m, Dictionary(ts), ts))
  {
    var d, g := Dictionary(ts), LeakGraph(ts);
    DictionaryExact(ts);
    ClosureTransitive(m, g);
    TransitiveIsTriangular(m, d, ts);
    var result := Saturate(m, d, ts);
    forall i, c | 0 <= i < |ts|
      ensures c in result[i].caps <==>
              c in ts[i].caps || exists j :: 0 <= j < |ts| && Reaches(g, j, i) && c in ts[j].caps
    {
      SaturateExact(m, d, ts, i, c);
      if j :| 0 <= j < |ts| && IsLeak(m, d, ts[j].id, ts[i].id) && c in ts[j].caps { assert Reaches(g, j, i); }
      if j :| 0 <= j < |ts| && Reaches(g, j, i) && c in ts[j].caps { assert IsLeak(m, d, ts[j].id, ts[i].id); }
    }
  }

  /**
   `leakMatrix`, from the caps and frames of all threads: the authority matrix is reachability over the
   direct leaks; every thread's caps are saturated along it; and the flow matrix connects different
   threads exactly when information can pass between them over direct flows and shared authority.
   */
  method LeakMatrix(ts: seq<Thread>, frames: seq<set<Cap>>)
    returns (auth: array2<bool>, info: array2<bool>, saturated: seq<Thread>)
    requires DistinctThreads(ts) && |ts| == |frames|
    ensures IsClosureOf(Edges(auth), LeakGraph(ts))
    ensures FullySaturated(ts, saturated)
    ensures forall i: nat, j: nat ::
      (i, j) in Edges(info) <==> i != j && Reaches(Symmetric(Edges(auth)) + FlowGraph(WithFrames(ts, frames)), i, j)
  {
    auth := AuthorityMatrix(ts);
    SaturatedByClosure(ts, Edges(auth));
    saturated := Saturate(Edges(auth), Dictionary(ts), ts);
    info := InformationMatrix(auth, WithFrames(ts, frames));
  }

  /** The closed authority matrix. */
  method AuthorityMatrix(ts: seq<Thread>) returns (auth: array2<bool>)
    requires DistinctThreads(ts)
    ensures fresh(auth) && auth.Length0 == auth.Length1 == |ts|
    ensures IsClosureOf(Edges(auth), LeakGraph(ts))
  {
    EnteredLeaks(ts);
    auth := NewEmptyMatrix(|ts|);
    LeaksTos(auth, Dictionary(ts), DirectTCBConnections(ts));
    assert Edges(auth) == LeakGraph(ts);
    Warshall(auth);
  }

  /** The information-flow matrix over a closed authority matrix. */
  method InformationMatrix(auth: array2<bool>, us: seq<Thread>) returns (info: array2<bool>)
    requires DistinctThreads(us) && auth.Length0 == auth.Length1 == |us|
    ensures fresh(info)
    ensures forall i: nat, j: nat ::
      (i, j) in Edges(info) <==> i != j && Reaches(Symmetric(Edges(auth)) + FlowGraph(us), i, j)
  {
    EnteredFlows(us);
    info := NewEmptyMatrix(|us|);
    AuthSharingFlows(auth, info);
    LeaksTos(info, Dictionary(us), DirectTCBFlows(us));
    assert Edges(info) == Symmetric(Edges(auth)) + FlowGraph(us);
    Warshall(info);
    RemoveReflexive(info);
  }
}
