/**
 What whole runs of `allocate` do with the objects of one size, and with the space: objects are placed in
 order, and when untypeds run out no room is left that an object still waiting could have taken.
 */
module Thrift {
  import opened Wrappers
  import opened Arithmetic
  import opened Untypeds
  import opened BestFit
  import opened Allocation
  import opened PinnedPlacement
  import opened Filling

  // ----- the order of objects of one size -----

  /** The fungible objects of one size in all untypeds, in order. */
  function OfSizeAll(ts: seq<Tagged>, k: nat): seq<Object> {
    if ts == [] then [] else OfSize(ts[0].ut.children, k) + OfSizeAll(ts[1..], k)
  }

  /** Nothing has been placed in the untypeds from `i` on. */
  predicate UnusedFrom(ts: seq<Tagged>, i: nat) {
    forall j :: i <= j < |ts| ==> ts[j].ut.children == []
  }

  lemma {:induction false} OfSizeUnused(ts: seq<Tagged>, k: nat)
    requires UnusedFrom(ts, 0)
    ensures OfSizeAll(ts, k) == []
  {
    if ts != [] { OfSizeUnused(ts[1..], k); }
  }

  lemma {:induction false} OfSizeUpTo(ts: seq<Tagged>, c: nat, k: nat)
    requires c < |ts| && UnusedFrom(ts, c + 1)
    ensures OfSizeAll(ts, k) == OfSizeAll(ts[..c], k) + OfSize(ts[c].ut.children, k)
    decreases c
  {
    if c == 0 {
      OfSizeUnused(ts[1..], k);
    } else {
      OfSizeUpTo(ts[1..], c - 1, k);
      assert ts[1..][..c - 1] == ts[..c][1..];
    }
  }

  /** The objects of every size, waiting and placed, are in the order of the first queue. */
  ghost predicate InOrder(s: State, q0: Queue) {
    forall k: nat :: LevelOf(q0, k) == LevelOf(s.q, k) + Reversed(OfSizeAll(s.all, k))
  }

  predicate AllTight(s: State) {
    forall i :: 0 <= i < |s.all| && !s.all[i].device ==> Tight(s.q, s.all[i].ut.children, 0)
  }

  ghost predicate Orderly(s: State, q0: Queue) {
    Inv(s) && UnusedFrom(s.all, s.c + 1) && AllTight(s) && InOrder(s, q0)
  }

  /** The current untyped has been given children in order. */
  ghost predicate GoesOn(s: State, q: Queue, u: Ut)
    requires s.c < |s.all|
  {
    && FewerSizes(s.q, q) && s.Cur().ut.children <= u.children
    && (!s.Cur().device ==> Tight(q, u.children, |s.Cur().ut.children|))
    && SameLines(s.q, s.Cur().ut.children, q, u.children)
  }

  lemma {:induction false} ReplacedInOrder(s: State, q: Queue, u: Ut, q0: Queue)
    requires Orderly(s, q0) && GoesOn(s, q, u)
    ensures InOrder(Replaced(s, q, u), q0)
  {
    var s' := Replaced(s, q, u);
    forall k: nat ensures LevelOf(q0, k) == LevelOf(s'.q, k) + Reversed(OfSizeAll(s'.all, k)) {
      assert Line(q, u.children, k) == Line(s.q, s.Cur().ut.children, k);
      ReplacedLine(s, q, u, k);
    }
  }

  lemma {:induction false} ReplacedLine(s: State, q: Queue, u: Ut, k: nat)
    requires s.c < |s.all| && UnusedFrom(s.all, s.c + 1)
    requires Line(q, u.children, k) == Line(s.q, s.Cur().ut.children, k)
    ensures LevelOf(q, k) + Reversed(OfSizeAll(Replaced(s, q, u).all, k))
         == LevelOf(s.q, k) + Reversed(OfSizeAll(s.all, k))
  {
    var ts := Replaced(s, q, u).all;
    OfSizeUpTo(s.all, s.c, k);
    OfSizeUpTo(ts, s.c, k);
    assert ts[..s.c] == s.all[..s.c];
    var done, was, now := OfSizeAll(s.all[..s.c], k), OfSize(s.Cur().ut.children, k), OfSize(u.children, k);
    ReversedConcat(done, was);
    ReversedConcat(done, now);
    SameFront(LevelOf(s.q, k), Reversed(was), LevelOf(q, k), Reversed(now), Reversed(done));
  }

  lemma {:induction false} SameFront(a: seq<Object>, b: seq<Object>, c: seq<Object>, d: seq<Object>, e: seq<Object>)
    requires a + b == c + d
    ensures a + (b + e) == c + (d + e)
  {
    assert a + (b + e) == (a + b) + e && c + (d + e) == (c + d) + e;
  }

  lemma {:induction false} ReplacedOrderly(s: State, q: Queue, u: Ut, q0: Queue)
    requires Orderly(s, q0) && GoesOn(s, q, u) && Inv(Replaced(s, q, u))
    ensures Orderly(Replaced(s, q, u), q0)
  {
    ReplacedInOrder(s, q, u, q0);
    var s' := Replaced(s, q, u);
    forall i | 0 <= i < |s'.all| && !s'.all[i].device ensures Tight(s'.q, s'.all[i].ut.children, 0) {
      assert Tight(s.q, s.all[i].ut.children, 0);
      forall j | 0 <= j < |s'.all[i].ut.children| && s'.all[i].ut.children[j].Placeholder?
        ensures NoneFit(s'.q, s'.all[i].ut.children[j].bits)
      {
        if i != s.c || j < |s.Cur().ut.children| { assert s'.all[i].ut.children[j] == s.all[i].ut.children[j]; }
      }
    }
  }

  lemma {:induction false} UseCurOrderly(s: State, bytes: nat, q0: Queue)
    requires Orderly(s, q0) && bytes <= s.Cur().ut.Remaining()
    ensures Orderly(UseCur(s, bytes), q0)
  {
    var u, d := s.Cur().ut, s.Cur().device;
    var r := UseUntyped(s.q, u, bytes, d);
    if d { UseDevice(s.q, u, bytes); } else { UseFed(s.q, u, bytes); }
    assert UseCur(s, bytes) == Replaced(s, r.q, r.u);
    ReplacedOrderly(s, r.q, r.u, q0);
  }

  lemma {:induction false} PlacePinnedOrderly(s: State, q0: Queue)
    requires Orderly(s, q0) && s.q.unfun != [] && Inv(PlacePinned(s))
    ensures Orderly(PlacePinned(s), q0)
  {
    var o, cs := s.q.unfun[0], s.Cur().ut.children;
    var q := s.q.(unfun := s.q.unfun[1..]);
    forall k: nat ensures Line(q, cs + [Allocated(o)], k) == Line(s.q, cs, k) { OfSizeAppend(cs, Allocated(o), k); }
    ReplacedOrderly(s, q, s.Cur().ut.Add(Allocated(o)), q0);
  }

  lemma {:induction false} ReachOrderly(s: State, q0: Queue)
    requires Orderly(s, q0) && s.q.unfun != [] && FitsHere(s)
    ensures Orderly(Reach(s).s, q0)
  {
    var o := s.q.unfun[0];
    var gap := o.paddr.value - s.Cur().ut.WatermarkPaddr();
    var s1 := AfterUse(s, o, gap);
    UseCurOrderly(s, gap, q0);
    if Aligned(o.paddr.value, o.sizeBits) {
      ReachPlaced(s, s1, o);
      PlacePinnedOrderly(s1, q0);
    } else {
      ReachStopped(s, s1, o);
    }
  }

  lemma {:induction false} NextUtOrderly(s: State, q0: Queue)
    requires Orderly(s, q0) && !s.Last()
    ensures Orderly(NextUt(s), q0)
  {
  }

  lemma {:induction false} PinnedBodyOrderly(s: State, q0: Queue)
    requires Orderly(s, q0) && s.q.unfun != []
    ensures Orderly(PinnedBody(s).s, q0)
  {
    if s.q.unfun[0].paddr.value < s.Cur().ut.WatermarkPaddr() {
    } else if FitsHere(s) {
      ReachOrderly(s, q0);
    } else if s.q.fun != map[] {
      UseCurOrderly(s, s.Cur().ut.Remaining(), q0);
    } else if !s.Last() {
      NextUtOrderly(s, q0);
    }
  }

  lemma {:induction false} PinnedPhaseOrderly(s: State, q0: Queue)
    requires Orderly(s, q0)
    ensures Orderly(PinnedPhase(s).s, q0)
    decreases |s.all| - s.c, |s.q.unfun|, s.Cur().ut.Remaining()
  {
    if s.q.unfun != [] {
      if s.Cur().ut.Remaining() > 0 {
        PinnedBodyOrderly(s, q0);
      } else if !s.Last() {
        NextUtOrderly(s, q0);
        PinnedBodyOrderly(NextUt(s), q0);
      }
      if PinnedStep(s).Done? {
        PinnedStepProgress(s);
        PinnedPhaseOrderly(PinnedStep(s).s, q0);
      }
    }
  }

  lemma {:induction false} TopUpOrderly(s: State, q0: Queue)
    requires Orderly(s, q0)
    ensures Orderly(TopUp(s), q0)
  {
    if !s.Cur().device { UseCurOrderly(s, s.Cur().ut.Remaining(), q0); }
  }

  lemma {:induction false} FungiblePhaseOrderly(s: State, q0: Queue)
    requires Orderly(s, q0)
    ensures Orderly(FungiblePhase(s).s, q0)
    decreases |s.all| - s.c
  {
    if s.q.fun != map[] && !s.Last() {
      NextUtOrderly(s, q0);
      TopUpOrderly(NextUt(s), q0);
      var s' := FungibleNext(s);
      FungiblePhaseOrderly(s', q0);
    }
  }

  lemma {:induction false} RunOrderly(s: State, q0: Queue) returns (s': State)
    requires Orderly(s, q0)
    ensures s' == Run(s).s && Orderly(s', q0)
  {
    s' := Run(s).s;
    RunUnfold(s);
    PinnedPhaseOrderly(s, q0);
    if PinnedPhase(s).Done? {
      TopUpOrderly(PinnedPhase(s).s, q0);
      FungiblePhaseOrderly(TopUp(PinnedPhase(s).s), q0);
    }
  }

  // ----- from a list of objects -----

  /** The fungible objects of one size in a list, in order. */
  function FungibleOf(objs: seq<Object>, k: nat): seq<Object> {
    if objs == [] then []
    else
      var rest := FungibleOf(objs[1..], k);
      if Fungible(objs[0]) && objs[0].sizeBits == k then [objs[0]] + rest else rest
  }

  lemma {:induction false} BuildLevels(q: Queue, objs: seq<Object>, k: nat)
    requires ValidQueue(q) && Build(q, objs).Some?
    ensures LevelOf(Build(q, objs).value, k) == LevelOf(q, k) + FungibleOf(objs, k)
    decreases |objs|
  {
    if objs != [] {
      var o := objs[0];
      PushKeepsValid(q, o);
      var q' := Push(q, o).value;
      BuildLevels(q', objs[1..], k);
      assert LevelOf(q', k) == if Fungible(o) && o.sizeBits == k then LevelOf(q, k) + [o] else LevelOf(q, k);
    }
  }

  lemma {:induction false} StartOrderly(objs: seq<Object>, supply: seq<Tagged>)
    requires AllReady(supply) && supply != [] && Build(EMPTY_QUEUE, objs).Some?
    requires forall i :: 0 <= i < |supply| ==> supply[i].ut.Fresh()
    ensures var q := Build(EMPTY_QUEUE, objs).value; Orderly(State(q, supply, 0), q)
  {
    StartInv(objs, supply);
    var q := Build(EMPTY_QUEUE, objs).value;
    forall k: nat ensures LevelOf(q, k) == LevelOf(q, k) + Reversed(OfSizeAll(supply, k)) {
      OfSizeUnused(supply, k);
    }
  }

  /**
   The fungible objects of one size are placed in the reverse order of the list, which is the order of their names,
   without a gap: those placed are the last ones of the list, the last of all first. On success they are all placed.
   */
  lemma {:induction false} PlacedInOrder(objs: seq<Object>, supply: seq<Tagged>, k: nat)
    requires AllReady(supply) && forall i :: 0 <= i < |supply| ==> supply[i].ut.Fresh()
    ensures var r := Allocate(objs, supply);
            && OfSizeAll(r.uts, k) <= Reversed(FungibleOf(objs, k))
            && (r.failure.None? ==> OfSizeAll(r.uts, k) == Reversed(FungibleOf(objs, k)))
  {
    if objs == [] || supply == [] || Build(EMPTY_QUEUE, objs).None? {
      OfSizeUnused(supply, k);
    } else {
      StartInv(objs, supply);
      RunInOrder(objs, supply, k);
    }
  }

  lemma {:induction false} RunInOrder(objs: seq<Object>, supply: seq<Tagged>, k: nat)
    requires AllReady(supply) && supply != [] && Build(EMPTY_QUEUE, objs).Some?
    requires forall i :: 0 <= i < |supply| ==> supply[i].ut.Fresh()
    requires Inv(State(Build(EMPTY_QUEUE, objs).value, supply, 0))
    ensures var r := Run(State(Build(EMPTY_QUEUE, objs).value, supply, 0));
            && OfSizeAll(r.s.all, k) <= Reversed(FungibleOf(objs, k))
            && (r.Done? ==> OfSizeAll(r.s.all, k) == Reversed(FungibleOf(objs, k)))
  {
    var s := RunLine(objs, supply, k);
    PlacedPrefix(LevelOf(s.q, k), OfSizeAll(s.all, k), FungibleOf(objs, k));
  }

  lemma {:induction false} RunLine(objs: seq<Object>, supply: seq<Tagged>, k: nat) returns (s: State)
    requires AllReady(supply) && supply != [] && Build(EMPTY_QUEUE, objs).Some?
    requires forall i :: 0 <= i < |supply| ==> supply[i].ut.Fresh()
    requires Inv(State(Build(EMPTY_QUEUE, objs).value, supply, 0))
    ensures s == Run(State(Build(EMPTY_QUEUE, objs).value, supply, 0)).s
    ensures FungibleOf(objs, k) == LevelOf(s.q, k) + Reversed(OfSizeAll(s.all, k))
  {
    var q := Build(EMPTY_QUEUE, objs).value;
    StartOrderly(objs, supply);
    s := RunOrderly(State(q, supply, 0), q);
    BuildLevels(EMPTY_QUEUE, objs, k);
    assert LevelOf(q, k) == LevelOf(s.q, k) + Reversed(OfSizeAll(s.all, k));
    assert [] + FungibleOf(objs, k) == FungibleOf(objs, k);
  }

  lemma {:induction false} PlacedPrefix(waiting: seq<Object>, placed: seq<Object>, line: seq<Object>)
    requires line == waiting + Reversed(placed)
    ensures placed <= Reversed(line) && (waiting == [] ==> placed == Reversed(line))
  {
    ReversedConcat(waiting, Reversed(placed));
    ReversedTwice(placed);
  }

  // ----- where they lie -----

  predicate ChildAt(ts: seq<Tagged>, u: nat, i: nat, o: Object) {
    u < |ts| && i < |ts[u].ut.children| && ts[u].ut.children[i] == Allocated(o)
  }

  /** Object `a` is a child of an earlier untyped than `b`, or of the same one and before it. */
  ghost predicate LiesBefore(ts: seq<Tagged>, a: Object, b: Object) {
    exists u: nat, i: nat, v: nat, j: nat :: ChildAt(ts, u, i, a) && ChildAt(ts, v, j, b)
        && (u < v || (u == v && i < j))
  }

  ghost predicate IsChild(ts: seq<Tagged>, o: Object) {
    exists u: nat, i: nat :: ChildAt(ts, u, i, o)
  }

  /** The place of an object of the children of one untyped. */
  lemma {:induction false} PlaceIn(cs: seq<Child>, k: nat, p: nat) returns (i: nat)
    requires p < |OfSize(cs, k)|
    ensures i < |cs| && cs[i] == Allocated(OfSize(cs, k)[p]) && |OfSize(cs[..i], k)| == p
    decreases |cs|
  {
    var n := |cs| - 1;
    if p < |OfSize(cs[..n], k)| {
      i := PlaceIn(cs[..n], k, p);
      assert cs[..n][..i] == cs[..i];
    } else {
      i := n;
    }
  }

  lemma {:induction false} OfSizeGrows(cs: seq<Child>, i: nat, j: nat, k: nat)
    requires i <= j <= |cs|
    ensures |OfSize(cs[..i], k)| <= |OfSize(cs[..j], k)|
    decreases j
  {
    if i < j {
      assert cs[..j][..j - 1] == cs[..j - 1];
      OfSizeGrows(cs, i, j - 1, k);
    }
  }

  lemma {:induction false} PlacesIn(cs: seq<Child>, k: nat, p: nat, r: nat) returns (i: nat, j: nat)
    requires p < r < |OfSize(cs, k)|
    ensures i < j < |cs| && cs[i] == Allocated(OfSize(cs, k)[p]) && cs[j] == Allocated(OfSize(cs, k)[r])
  {
    i := PlaceIn(cs, k, p);
    j := PlaceIn(cs, k, r);
    if j <= i { OfSizeGrows(cs, j, i, k); }
  }

  lemma {:induction false} PlaceAll(ts: seq<Tagged>, k: nat, p: nat) returns (u: nat, i: nat)
    requires p < |OfSizeAll(ts, k)|
    ensures ChildAt(ts, u, i, OfSizeAll(ts, k)[p])
    decreases |ts|
  {
    var cs := ts[0].ut.children;
    if p < |OfSize(cs, k)| {
      i := PlaceIn(cs, k, p);
      u := 0;
    } else {
      u, i := PlaceAll(ts[1..], k, p - |OfSize(cs, k)|);
      u := u + 1;
    }
  }

  lemma {:induction false} PlacesBefore(ts: seq<Tagged>, k: nat, p: nat, r: nat)
    requires p < r < |OfSizeAll(ts, k)|
    ensures LiesBefore(ts, OfSizeAll(ts, k)[p], OfSizeAll(ts, k)[r])
    decreases |ts|
  {
    var cs, rest := ts[0].ut.children, OfSizeAll(ts[1..], k);
    var n := |OfSize(cs, k)|;
    var a, b := OfSizeAll(ts, k)[p], OfSizeAll(ts, k)[r];
    if r < n {
      var i, j := PlacesIn(cs, k, p, r);
      assert ChildAt(ts, 0, i, a) && ChildAt(ts, 0, j, b);
    } else if p < n {
      var i := PlaceIn(cs, k, p);
      var v, j := PlaceAll(ts[1..], k, r - n);
      assert ChildAt(ts, 0, i, a) && ChildAt(ts, v + 1, j, b);
    } else {
      PlacesBefore(ts[1..], k, p - n, r - n);
      var u: nat, i: nat, v: nat, j: nat :| ChildAt(ts[1..], u, i, a) && ChildAt(ts[1..], v, j, b)
                                             && (u < v || (u == v && i < j));
      assert ChildAt(ts, u + 1, i, a) && ChildAt(ts, v + 1, j, b);
    }
  }

  lemma {:induction false} ChildListed(ts: seq<Tagged>, u: nat, i: nat, o: Object)
    requires ChildAt(ts, u, i, o) && Fungible(o)
    ensures o in OfSizeAll(ts, o.sizeBits)
    decreases |ts|
  {
    if u == 0 { ChildListedIn(ts[0].ut.children, i, o); } else { ChildListed(ts[1..], u - 1, i, o); }
  }

  lemma {:induction false} ChildListedIn(cs: seq<Child>, i: nat, o: Object)
    requires i < |cs| && cs[i] == Allocated(o) && Fungible(o)
    ensures o in OfSize(cs, o.sizeBits)
    decreases |cs|
  {
    if i < |cs| - 1 { ChildListedIn(cs[..|cs| - 1], i, o); }
  }

  /** Where two objects of a list stand among those of their size. */
  lemma {:induction false} StandsAt(objs: seq<Object>, i: nat) returns (p: nat)
    requires i < |objs| && Fungible(objs[i])
    ensures var line := FungibleOf(objs, objs[i].sizeBits);
            p < |line| && line[p] == objs[i] && p == |FungibleOf(objs[..i], objs[i].sizeBits)|
    decreases |objs|
  {
    if i == 0 {
      p := 0;
    } else {
      p := StandsAt(objs[1..], i - 1);
      assert objs[1..][..i - 1] == objs[..i][1..];
      if Fungible(objs[0]) && objs[0].sizeBits == objs[i].sizeBits { p := p + 1; }
    }
  }

  lemma {:induction false} LineGrows(objs: seq<Object>, i: nat, j: nat, k: nat)
    requires i < j <= |objs| && Fungible(objs[i]) && objs[i].sizeBits == k
    ensures |FungibleOf(objs[..i], k)| < |FungibleOf(objs[..j], k)|
    decreases i
  {
    if i > 0 {
      LineGrows(objs[1..], i - 1, j - 1, k);
      assert objs[1..][..i - 1] == objs[..i][1..] && objs[1..][..j - 1] == objs[..j][1..];
    }
  }

  lemma {:induction false} LineIn(objs: seq<Object>, k: nat, p: nat) returns (i: nat)
    requires p < |FungibleOf(objs, k)|
    ensures i < |objs| && objs[i] == FungibleOf(objs, k)[p] && Fungible(objs[i]) && objs[i].sizeBits == k
    ensures p == |FungibleOf(objs[..i], k)|
    decreases |objs|
  {
    if Fungible(objs[0]) && objs[0].sizeBits == k && p == 0 {
      i := 0;
    } else {
      var n := if Fungible(objs[0]) && objs[0].sizeBits == k then 1 else 0;
      i := LineIn(objs[1..], k, p - n);
      assert objs[1..][..i] == objs[..i + 1][1..];
      i := i + 1;
    }
  }

  /** Objects that are not listed twice stand once in their line. */
  lemma {:induction false} StandsOnce(objs: seq<Object>, i: nat, p: nat)
    requires i < |objs| && Fungible(objs[i]) && forall j :: 0 <= j < |objs| && objs[j] == objs[i] ==> j == i
    requires p < |FungibleOf(objs, objs[i].sizeBits)| && FungibleOf(objs, objs[i].sizeBits)[p] == objs[i]
    ensures p == |FungibleOf(objs[..i], objs[i].sizeBits)|
  {
    var j := LineIn(objs, objs[i].sizeBits, p);
  }

  predicate ListedOnce(objs: seq<Object>, i: nat)
    requires i < |objs|
  {
    forall j :: 0 <= j < |objs| && objs[j] == objs[i] ==> j == i
  }

  /** In a line with `o` at `a` only, what stands behind it comes before it in reverse. */
  lemma {:induction false} EarlierInReverse(line: seq<Object>, placed: seq<Object>, a: nat, b: nat, p: nat)
    requires placed <= Reversed(line) && a < b < |line| && p < |placed| && placed[p] == line[a]
    requires forall x :: 0 <= x < |line| && line[x] == line[a] ==> x == a
    ensures |line| - 1 - b < p && placed[|line| - 1 - b] == line[b]
  {
    ReversedAt(line, b);
    ReversedAt(Reversed(line), p);
    ReversedTwice(line);
    assert line[|line| - 1 - p] == line[a];
  }

  lemma {:induction false} LineIndices(objs: seq<Object>, i: nat, j: nat) returns (a: nat, b: nat)
    requires i < j < |objs| && Fungible(objs[i]) && Fungible(objs[j]) && objs[i].sizeBits == objs[j].sizeBits
    requires ListedOnce(objs, i)
    ensures var line := FungibleOf(objs, objs[i].sizeBits);
            && a < b < |line| && line[a] == objs[i] && line[b] == objs[j]
            && forall x :: 0 <= x < |line| && line[x] == line[a] ==> x == a
  {
    a := StandsAt(objs, i);
    b := StandsAt(objs, j);
    LineGrows(objs, i, j, objs[i].sizeBits);
    var line := FungibleOf(objs, objs[i].sizeBits);
    forall x | 0 <= x < |line| && line[x] == line[a] ensures x == a { StandsOnce(objs, i, x); }
  }

  /**
   Of two fungible objects of one size, the one later in the list is placed first: if the earlier one has become a child
   then so has the later one, in an earlier untyped, or in the same one before it.
   */
  lemma {:induction false} LaterPlacedFirst(objs: seq<Object>, supply: seq<Tagged>, i: nat, j: nat)
    requires AllReady(supply) && forall k :: 0 <= k < |supply| ==> supply[k].ut.Fresh()
    requires i < j < |objs| && Fungible(objs[i]) && Fungible(objs[j]) && objs[i].sizeBits == objs[j].sizeBits
    requires ListedOnce(objs, i)
    requires IsChild(Allocate(objs, supply).uts, objs[i])
    ensures LiesBefore(Allocate(objs, supply).uts, objs[j], objs[i])
  {
    PlacedInOrder(objs, supply, objs[i].sizeBits);
    PrefixBefore(objs, Allocate(objs, supply).uts, i, j);
  }

  lemma {:induction false} PrefixBefore(objs: seq<Object>, uts: seq<Tagged>, i: nat, j: nat)
    requires i < j < |objs| && Fungible(objs[i]) && Fungible(objs[j]) && objs[i].sizeBits == objs[j].sizeBits
    requires ListedOnce(objs, i) && IsChild(uts, objs[i])
    requires OfSizeAll(uts, objs[i].sizeBits) <= Reversed(FungibleOf(objs, objs[i].sizeBits))
    ensures LiesBefore(uts, objs[j], objs[i])
  {
    var k := objs[i].sizeBits;
    var line, placed := FungibleOf(objs, k), OfSizeAll(uts, k);
    var u: nat, c: nat :| ChildAt(uts, u, c, objs[i]);
    ChildListed(uts, u, c, objs[i]);
    var p :| 0 <= p < |placed| && placed[p] == objs[i];
    var a, b := LineIndices(objs, i, j);
    EarlierInReverse(line, placed, a, b, p);
    PlacesBefore(uts, k, |line| - 1 - b, p);
  }
}
