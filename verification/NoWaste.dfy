/**
 When `allocate` runs out of untypeds although the pinned objects fit, all normal untypeds are used up, and
 every block that an object still waiting could have taken is occupied, or cut off by a pinned object.
 */
module NoWaste {
  import opened Wrappers
  import opened Arithmetic
  import opened Untypeds
  import opened BestFit
  import opened Allocation
  import opened PinnedPlacement
  import opened Filling
  import opened Thrift

  predicate PinnedChild(u: Ut, i: nat) {
    i < |u.children| && u.children[i].Allocated? && Pinned(u.children[i].obj)
  }

  /**
   Child `j` is the next pinned object behind the block of `2^k` bytes at `a`, and does not lie at a multiple of it.
   */
  ghost predicate CutOffBy(u: Ut, a: nat, k: nat, j: nat) {
    && PinnedChild(u, j) && a + Pow2(k) <= u.ChildAddr(j) && !Aligned(u.ChildAddr(j), k)
    && forall i: nat :: PinnedChild(u, i) && a + Pow2(k) <= u.ChildAddr(i) ==> u.ChildAddr(j) <= u.ChildAddr(i)
  }

  ghost predicate CutOff(u: Ut, a: nat, k: nat) {
    exists j: nat :: CutOffBy(u, a, k, j)
  }

  /** The blocks of `2^k` bytes from `lo` to the watermark are occupied or cut off. */
  ghost predicate NoRoomFrom(u: Ut, lo: nat, k: nat) {
    forall a: nat :: lo <= a && a + Pow2(k) <= u.WatermarkPaddr() && Aligned(a, k) ==>
        Occupied(u, a, k) || CutOff(u, a, k)
  }

  ghost predicate NoRoom(u: Ut, k: nat) {
    NoRoomFrom(u, u.paddr, k)
  }

  // ----- appending children -----

  /** The same untyped, with children appended. */
  predicate Extends(u: Ut, v: Ut) {
    u.Laid() && v.Laid() && SameUntyped(u, v) && u.children <= v.children
  }

  lemma {:induction false} NewBehind(u: Ut, v: Ut, i: nat)
    requires Extends(u, v) && |u.children| <= i < |v.children|
    ensures u.WatermarkPaddr() <= v.ChildAddr(i)
  {
    SameAddr(u, v, |u.children|);
    assert u.children[..|u.children|] == u.children;
    SpanPrefix(v.children, |u.children|, i);
  }

  lemma {:induction false} OldBefore(u: Ut, i: nat)
    requires u.Laid() && i < |u.children|
    ensures u.ChildAddr(i) + ChildSize(u.children[i]) <= u.WatermarkPaddr()
  {
    SpanPrefix(u.children, i, |u.children|);
    assert u.children[..|u.children|] == u.children;
  }

  lemma {:induction false} StaysCutOff(u: Ut, v: Ut, a: nat, k: nat)
    requires Extends(u, v) && CutOff(u, a, k)
    ensures CutOff(v, a, k)
  {
    var j: nat :| CutOffBy(u, a, k, j);
    SameAddr(u, v, j);
    OldBefore(u, j);
    forall i: nat | PinnedChild(v, i) && a + Pow2(k) <= v.ChildAddr(i) ensures v.ChildAddr(j) <= v.ChildAddr(i) {
      if i < |u.children| {
        SameAddr(u, v, i);
        assert PinnedChild(u, i);
      } else {
        NewBehind(u, v, i);
      }
    }
    assert CutOffBy(v, a, k, j);
  }

  /** The last child is an object, or there is none, or no room behind it. */
  predicate EndsWithObject(u: Ut) {
    u.children == [] || u.children[|u.children| - 1].Allocated? || u.Remaining() == 0
  }

  /** A block around the end of what was used before is occupied by the object that lies there. */
  lemma {:induction false} AroundEnd(u: Ut, v: Ut, a: nat, k: nat)
    requires Extends(u, v) && EndsWithObject(u)
    requires u.paddr <= a < u.WatermarkPaddr() < a + Pow2(k) <= v.WatermarkPaddr()
    ensures Occupied(v, a, k)
  {
    assert u.children != [];
    var n := |u.children| - 1;
    assert u.children[..|u.children|] == u.children && u.children[..n + 1][..n] == u.children[..n];
    assert u.ChildAddr(n) + ChildSize(u.children[n]) == u.WatermarkPaddr();
    assert OccupiedBy(u, a, k, n);
    StaysOccupied(u, v, a, k);
  }

  /** There is no room in the whole if there was none, and none has been left since. */
  lemma {:induction false} NoRoomLeft(u: Ut, v: Ut, k: nat)
    requires Extends(u, v) && EndsWithObject(u) && NoRoom(u, k) && NoRoomFrom(v, u.WatermarkPaddr(), k)
    ensures NoRoom(v, k)
  {
    forall a: nat | v.paddr <= a && a + Pow2(k) <= v.WatermarkPaddr() && Aligned(a, k)
      ensures Occupied(v, a, k) || CutOff(v, a, k)
    {
      if a + Pow2(k) <= u.WatermarkPaddr() {
        if Occupied(u, a, k) { StaysOccupied(u, v, a, k); } else { StaysCutOff(u, v, a, k); }
      } else if a < u.WatermarkPaddr() {
        AroundEnd(u, v, a, k);
      }
    }
  }

  lemma {:induction false} UnusedNoRoom(u: Ut, k: nat)
    requires u.Laid() && u.children == []
    ensures NoRoom(u, k)
  {
  }

  // ----- using up the rest of an untyped -----

  lemma {:induction false} EndAligned(u: Ut, a: nat, k: nat)
    requires u.Laid() && u.paddr <= a && a + Pow2(k) <= u.End()
    ensures Aligned(u.End(), k)
  {
    if k > u.sizeBits { Pow2Monotone(u.sizeBits, k); }
    Pow2Aligned(u.sizeBits, u.sizeBits);
    AlignedAdd(u.paddr, u.Size(), u.sizeBits);
    AlignedWeaken(u.End(), k, u.sizeBits);
  }

  lemma {:induction false} RestNoRoom(q: Queue, u: Ut, k: nat)
    requires ValidQueue(q) && u.Laid() && EndsWithObject(u) && NoRoom(u, k)
    requires k in UseUntyped(q, u, u.Remaining(), false).q.fun
    ensures NoRoom(UseUntyped(q, u, u.Remaining(), false).u, k)
  {
    var v := UseUntyped(q, u, u.Remaining(), false).u;
    UseFed(q, u, u.Remaining());
    forall a: nat | u.WatermarkPaddr() <= a && a + Pow2(k) <= v.WatermarkPaddr() && Aligned(a, k)
      ensures Occupied(v, a, k)
    {
      EndAligned(u, a, k);
      UseOccupies(q, u, u.Remaining(), k);
    }
    NoRoomLeft(u, v, k);
  }

  // ----- filling a gap and placing a pinned object behind it -----

  /** The gap before a pinned object that is placed last. */
  lemma {:induction false} GapNoRoom(u: Ut, v: Ut, o: Object, k: nat)
    requires Extends(u, v) && NonePinned(v.children, |u.children|) && Pinned(o) && v.Add(Allocated(o)).Laid()
    requires Aligned(v.WatermarkPaddr(), k) ==> AllOccupied(v, u.WatermarkPaddr(), v.WatermarkPaddr(), k)
    ensures NoRoomFrom(v.Add(Allocated(o)), u.WatermarkPaddr(), k)
  {
    var t := v.Add(Allocated(o));
    var n := |v.children|;
    LastPlaced(v, o);
    forall a: nat | u.WatermarkPaddr() <= a && a + Pow2(k) <= t.WatermarkPaddr() && Aligned(a, k)
      ensures Occupied(t, a, k) || CutOff(t, a, k)
    {
      if a + Pow2(k) > v.WatermarkPaddr() {
        assert OccupiedBy(t, a, k, n);
      } else if Aligned(v.WatermarkPaddr(), k) {
        StaysOccupied(v, t, a, k);
      } else {
        LastCutsOff(u, v, o, a, k);
      }
    }
  }

  lemma {:induction false} LastPlaced(v: Ut, o: Object)
    requires v.Laid()
    ensures var t := v.Add(Allocated(o)); t.ChildAddr(|v.children|) == v.WatermarkPaddr()
  {
    var t := v.Add(Allocated(o));
    assert t.children[..|v.children|] == v.children;
  }

  lemma {:induction false} LastCutsOff(u: Ut, v: Ut, o: Object, a: nat, k: nat)
    requires Extends(u, v) && NonePinned(v.children, |u.children|) && Pinned(o) && v.Add(Allocated(o)).Laid()
    requires !Aligned(v.WatermarkPaddr(), k) && u.WatermarkPaddr() <= a && a + Pow2(k) <= v.WatermarkPaddr()
    ensures CutOff(v.Add(Allocated(o)), a, k)
  {
    var t, n := v.Add(Allocated(o)), |v.children|;
    LastPlaced(v, o);
    forall i: nat | PinnedChild(t, i) && a + Pow2(k) <= t.ChildAddr(i) ensures t.ChildAddr(n) <= t.ChildAddr(i) {
      if i < |u.children| {
        SameAddr(u, v, i);
        SameAddr(v, t, i);
        OldBefore(u, i);
        assert false;
      } else {
        assert i == n;
      }
    }
    assert CutOffBy(t, a, k, n);
  }

  // ----- states -----

  /** No untyped has room for an object that is waiting. */
  ghost predicate NoRoomForWaiting(q: Queue, u: Ut) {
    forall k: nat :: k in q.fun ==> NoRoom(u, k)
  }

  predicate UsedUpBefore(s: State, c: nat) {
    forall i :: 0 <= i < c && i < |s.all| && !s.all[i].device ==> s.all[i].ut.Remaining() == 0
  }

  ghost predicate Compact(s: State) {
    && Inv(s) && UnusedFrom(s.all, s.c + 1)
    && (forall i :: 0 <= i <= s.c && !s.all[i].device ==> NoRoomForWaiting(s.q, s.all[i].ut))
    && (s.q.fun != map[] ==> UsedUpBefore(s, s.c))
    && (!s.Cur().device ==> EndsWithObject(s.Cur().ut))
  }

  /** The current untyped is used up too. */
  ghost predicate CompactFull(s: State) {
    Compact(s) && (!s.Cur().device ==> s.Cur().ut.Remaining() == 0)
  }

  lemma {:induction false} ReplacedCompact(s: State, q: Queue, u: Ut)
    requires Compact(s) && Inv(Replaced(s, q, u)) && FewerSizes(s.q, q)
    requires !s.Cur().device ==> NoRoomForWaiting(q, u) && EndsWithObject(u)
    ensures Compact(Replaced(s, q, u))
  {
    var s' := Replaced(s, q, u);
    forall i | 0 <= i <= s'.c && !s'.all[i].device ensures NoRoomForWaiting(s'.q, s'.all[i].ut) {
      if i != s.c { assert s'.all[i] == s.all[i] && NoRoomForWaiting(s.q, s.all[i].ut); }
    }
    if q.fun != map[] { var k :| k in q.fun; }
  }

  lemma {:induction false} UseRestCompact(s: State)
    requires Compact(s)
    ensures CompactFull(UseCur(s, s.Cur().ut.Remaining()))
  {
    var u, d := s.Cur().ut, s.Cur().device;
    var r := UseUntyped(s.q, u, u.Remaining(), d);
    assert UseCur(s, u.Remaining()) == Replaced(s, r.q, r.u);
    if d {
      UseDevice(s.q, u, u.Remaining());
    } else {
      UseFed(s.q, u, u.Remaining());
      forall k: nat | k in r.q.fun ensures NoRoom(r.u, k) {
        assert NoRoom(u, k);
        RestNoRoom(s.q, u, k);
      }
    }
    ReplacedCompact(s, r.q, r.u);
  }

  lemma {:induction false} ReachCompact(s: State)
    requires Compact(s) && s.q.unfun != [] && FitsHere(s) && Reach(s).Done?
    ensures Compact(Reach(s).s)
  {
    var o := s.q.unfun[0];
    var gap := o.paddr.value - s.Cur().ut.WatermarkPaddr();
    var s1 := AfterUse(s, o, gap);
    ReachPlaced(s, s1, o);
    PlacedIsReplaced(s, s1, gap);
    PlacedCompact(s, gap, s1, o);
  }

  lemma {:induction false} PlacedCompact(s: State, gap: nat, s1: State, o: Object)
    requires Compact(s) && gap <= s.Cur().ut.Remaining() && s1 == UseCur(s, gap)
    requires s1.q.unfun != [] && o == s1.q.unfun[0] && Pinned(o)
    requires Inv(Replaced(s, s1.q.(unfun := s1.q.unfun[1..]), s1.Cur().ut.Add(Allocated(o))))
    ensures Compact(Replaced(s, s1.q.(unfun := s1.q.unfun[1..]), s1.Cur().ut.Add(Allocated(o))))
  {
    var q, u := s1.q.(unfun := s1.q.unfun[1..]), s1.Cur().ut.Add(Allocated(o));
    GapUsed(s, gap, s1.q, s1.Cur().ut);
    if !s.Cur().device {
      assert Ready(Replaced(s, q, u).all[s.c]);
      forall k: nat | k in q.fun ensures NoRoom(u, k) { PlacedNoRoom(s, gap, s1, o, k); }
    }
    ReplacedCompact(s, q, u);
  }

  lemma {:induction false} GapUsed(s: State, gap: nat, q: Queue, u: Ut)
    requires Inv(s) && gap <= s.Cur().ut.Remaining() && q == UseCur(s, gap).q && u == UseCur(s, gap).Cur().ut
    ensures FewerSizes(s.q, q) && Extends(s.Cur().ut, u)
    ensures !s.Cur().device ==>
              Used(q, u) == UseUntyped(s.q, s.Cur().ut, gap, false) && NonePinned(u.children, |s.Cur().ut.children|)
  {
    if s.Cur().device { UseDevice(s.q, s.Cur().ut, gap); } else { UseFed(s.q, s.Cur().ut, gap); }
  }

  lemma {:induction false} PlacedIsReplaced(s: State, s1: State, gap: nat)
    requires Inv(s) && gap <= s.Cur().ut.Remaining() && s1 == UseCur(s, gap) && s1.q.unfun != []
    ensures PlacePinned(s1)
         == Replaced(s, s1.q.(unfun := s1.q.unfun[1..]), s1.Cur().ut.Add(Allocated(s1.q.unfun[0])))
  {
  }

  lemma {:induction false} PlacedNoRoom(s: State, gap: nat, s1: State, o: Object, k: nat)
    requires Compact(s) && !s.Cur().device && gap <= s.Cur().ut.Remaining() && s1 == UseCur(s, gap) && k in s1.q.fun
    requires Pinned(o) && s1.Cur().ut.Add(Allocated(o)).Laid()
    requires FewerSizes(s.q, s1.q) && Extends(s.Cur().ut, s1.Cur().ut)
    requires Used(s1.q, s1.Cur().ut) == UseUntyped(s.q, s.Cur().ut, gap, false)
    requires NonePinned(s1.Cur().ut.children, |s.Cur().ut.children|)
    ensures NoRoom(s1.Cur().ut.Add(Allocated(o)), k)
  {
    var u, v := s.Cur().ut, s1.Cur().ut;
    if Aligned(v.WatermarkPaddr(), k) { UseOccupies(s.q, u, gap, k); }
    GapNoRoom(u, v, o, k);
    assert NoRoom(u, k);
    NoRoomLeft(u, v.Add(Allocated(o)), k);
  }

  lemma {:induction false} NextUtCompact(s: State)
    requires Compact(s) && !s.Last()
    requires s.q.fun == map[] || s.Cur().device || s.Cur().ut.Remaining() == 0
    ensures Compact(NextUt(s))
  {
    var s' := NextUt(s);
    assert Ready(s.all[s.c + 1]);
    forall k: nat ensures NoRoom(s'.Cur().ut, k) { UnusedNoRoom(s'.Cur().ut, k); }
  }

  lemma {:induction false} PinnedBodyCompact(s: State)
    requires Compact(s) && s.q.unfun != [] && PinnedBody(s).Done?
    ensures Compact(PinnedBody(s).s)
  {
    if FitsHere(s) {
      ReachCompact(s);
    } else if s.q.fun != map[] {
      UseRestCompact(s);
    } else {
      NextUtCompact(s);
    }
  }

  lemma {:induction false} PinnedPhaseCompact(s: State)
    requires Compact(s) && PinnedPhase(s).Done?
    ensures Compact(PinnedPhase(s).s)
    decreases |s.all| - s.c, |s.q.unfun|, s.Cur().ut.Remaining()
  {
    if s.q.unfun != [] {
      if s.Cur().ut.Remaining() > 0 {
        PinnedBodyCompact(s);
      } else {
        NextUtCompact(s);
        PinnedBodyCompact(NextUt(s));
      }
      PinnedStepProgress(s);
      PinnedPhaseCompact(PinnedStep(s).s);
    }
  }

  lemma {:induction false} TopUpCompact(s: State)
    requires Compact(s)
    ensures CompactFull(TopUp(s))
  {
    if !s.Cur().device { UseRestCompact(s); }
  }

  lemma {:induction false} FungiblePhaseCompact(s: State)
    requires CompactFull(s)
    ensures CompactFull(FungiblePhase(s).s)
    ensures FungiblePhase(s).Raised? ==> FungiblePhase(s).s.Last() && FungiblePhase(s).s.q.fun != map[]
    decreases |s.all| - s.c
  {
    if s.q.fun != map[] && !s.Last() {
      NextUtCompact(s);
      TopUpCompact(NextUt(s));
      var s' := FungibleNext(s);
      FungiblePhaseCompact(s');
    }
  }

  // ----- whole runs -----

  /** The object has not become a child as often as it is listed. */
  predicate NotPlaced(objs: seq<Object>, uts: seq<Tagged>, o: Object) {
    HeldAll(uts, o) < multiset(objs)[o]
  }

  lemma {:induction false} StillWaiting(objs: seq<Object>, supply: seq<Tagged>, s: State, o: Object)
    requires FreshSupply(supply) && supply != [] && Build(EMPTY_QUEUE, objs).Some?
    requires Inv(State(Build(EMPTY_QUEUE, objs).value, supply, 0))
    requires Sound(State(Build(EMPTY_QUEUE, objs).value, supply, 0), s)
    requires Fungible(o) && NotPlaced(objs, s.all, o)
    ensures o.sizeBits in s.q.fun
  {
    var s0 := State(Build(EMPTY_QUEUE, objs).value, supply, 0);
    BuildCounts(EMPTY_QUEUE, objs, o);
    NothingHeld(supply, o);
    assert Ledger(s, o) == Ledger(s0, o);
    assert o !in s.q.unfun;
    assert o !in multiset(s.q.unfun);
  }

  /** A child of the untyped that is a placeholder is smaller than the object. */
  predicate PlaceholdersBelow(u: Ut, k: nat) {
    forall i :: 0 <= i < |u.children| && u.children[i].Placeholder? ==> u.children[i].bits < k
  }

  /** After any run, placeholders in normal memory are smaller than every fungible object that has not been placed. */
  lemma {:induction false} PlaceholdersSmall(objs: seq<Object>, supply: seq<Tagged>, o: Object)
    requires FreshSupply(supply) && Fungible(o) && NotPlaced(objs, Allocate(objs, supply).uts, o)
    ensures var uts := Allocate(objs, supply).uts;
            forall i :: 0 <= i < |uts| && !uts[i].device ==> PlaceholdersBelow(uts[i].ut, o.sizeBits)
  {
    if objs != [] && supply != [] && Build(EMPTY_QUEUE, objs).Some? {
      StartInv(objs, supply);
      var s0 := State(Build(EMPTY_QUEUE, objs).value, supply, 0);
      RunSound(s0);
      StartOrderly(objs, supply);
      var s := RunOrderly(s0, s0.q);
      StillWaiting(objs, supply, s, o);
      assert forall i :: 0 <= i < |s.all| && !s.all[i].device ==> Tight(s.q, s.all[i].ut.children, 0);
    }
  }

  lemma {:induction false} StartCompact(objs: seq<Object>, supply: seq<Tagged>)
    requires FreshSupply(supply) && supply != [] && Build(EMPTY_QUEUE, objs).Some?
    ensures Compact(State(Build(EMPTY_QUEUE, objs).value, supply, 0))
  {
    StartInv(objs, supply);
    assert Ready(supply[0]) && supply[0].ut.Fresh();
    forall k: nat ensures NoRoom(supply[0].ut, k) { UnusedNoRoom(supply[0].ut, k); }
  }

  /** The end of a run in which the pinned objects fit and the untypeds do not suffice. */
  lemma {:induction false} RunOut(objs: seq<Object>, supply: seq<Tagged>) returns (s: State)
    requires FreshSupply(supply) && supply != [] && objs != [] && PinnedFit(objs, supply)
    requires Allocate(objs, supply).failure == Some(OutOfUntyped)
    ensures Build(EMPTY_QUEUE, objs).Some? && Inv(State(Build(EMPTY_QUEUE, objs).value, supply, 0))
    ensures Sound(State(Build(EMPTY_QUEUE, objs).value, supply, 0), s)
    ensures s.all == Allocate(objs, supply).uts && CompactFull(s) && s.Last() && s.q.fun != map[]
  {
    PinnedExact(objs, supply);
    StartInv(objs, supply);
    var s0 := State(Build(EMPTY_QUEUE, objs).value, supply, 0);
    RunUnfold(s0);
    RunSound(s0);
    StartCompact(objs, supply);
    PinnedPhaseCompact(s0);
    TopUpCompact(PinnedPhase(s0).s);
    FungiblePhaseCompact(TopUp(PinnedPhase(s0).s));
    s := Run(s0).s;
  }

  /**
   When the pinned objects fit and the untypeds do not suffice, all normal untypeds are used up. A fungible object that
   has not been placed finds no room in them: every block of its size in a normal untyped is occupied by an object, or
   cut off by the next pinned object behind it, which does not lie at a multiple of that size.
   */
  lemma {:induction false} NothingWasted(objs: seq<Object>, supply: seq<Tagged>, o: Object)
    requires FreshSupply(supply) && supply != [] && objs != [] && PinnedFit(objs, supply)
    requires Allocate(objs, supply).failure == Some(OutOfUntyped)
    ensures var uts := Allocate(objs, supply).uts;
            && (forall i :: 0 <= i < |uts| && !uts[i].device ==> uts[i].ut.Remaining() == 0)
            && (Fungible(o) && NotPlaced(objs, uts, o) ==>
                  forall i :: 0 <= i < |uts| && !uts[i].device ==> NoRoom(uts[i].ut, o.sizeBits))
  {
    var s := RunOut(objs, supply);
    assert UsedUpBefore(s, s.c);
    if Fungible(o) && NotPlaced(objs, s.all, o) {
      StillWaiting(objs, supply, s, o);
      forall i | 0 <= i < |s.all| && !s.all[i].device ensures NoRoom(s.all[i].ut, o.sizeBits) {
        assert NoRoomForWaiting(s.q, s.all[i].ut);
      }
    }
  }

  // ----- what a pinned object cuts off is lost -----

  /** One pinned object and one that does not go into the gap before it, in one untyped which the two do not fill. */
  lemma {:induction false} LeftInGap(objs: seq<Object>, t: Tagged, f: Object, p: Object)
    requires objs == [f, p] && FreshSupply([t]) && !t.device && Fungible(f) && Pinned(p) && PinnedFit(objs, [t])
    requires !Aligned(p.paddr.value, f.sizeBits) && EndOf(p) == t.ut.End()
    ensures Allocate(objs, [t]).failure == Some(OutOfUntyped)
  {
    var s0 := StartOfTwo(objs, t, f, p);
    var gap := p.paddr.value - t.ut.paddr;
    assert Covered(objs[1], [t]);
    UseLeavesLarge(s0.q, t.ut, gap, f.sizeBits);
    var s1 := AfterUse(s0, p, gap);
    ReachPlaced(s0, s1, p);
    var s2 := PlacePinned(s1);
    PinnedPhaseOnce(s0, s2);
    FullAndLast(s2, f.sizeBits);
    RunUnfold(s0);
  }

  lemma {:induction false} FullAndLast(s: State, k: nat)
    requires Inv(s) && s.Last() && s.Cur().ut.Remaining() == 0 && k in s.q.fun && s.q.unfun == []
    ensures PinnedPhase(s) == Done(s) && FungiblePhase(TopUp(s)) == Raised(OutOfUntyped, TopUp(s))
  {
  }

  lemma {:induction false} PinnedPhaseOnce(s: State, s': State)
    requires Inv(s) && s.q.unfun != [] && PinnedStep(s) == Done(s')
    ensures PinnedPhase(s) == PinnedPhase(s')
  {
    PinnedStepProgress(s);
  }

  lemma {:induction false} StartOfTwo(objs: seq<Object>, t: Tagged, f: Object, p: Object) returns (s: State)
    requires objs == [f, p] && FreshSupply([t]) && Fungible(f) && Pinned(p)
    ensures Build(EMPTY_QUEUE, objs).Some? && s == State(Build(EMPTY_QUEUE, objs).value, [t], 0) && Inv(s)
    ensures s.q == Queue(map[f.sizeBits := [f]], [p])
  {
    assert objs[1..] == [p] && [p][1..] == [];
    var q := PushFun(EMPTY_QUEUE, f);
    assert q == Queue(map[f.sizeBits := [f]], []);
    PushKeepsValid(EMPTY_QUEUE, f);
    assert Push(EMPTY_QUEUE, f) == Some(q);
    assert [][..0] + [p] + [][0..] == [p];
    assert PushUnfun(q, p) == Some(q.(unfun := [p]));
    PushKeepsValid(q, p);
    assert Build(q, objs[1..]) == Build(q.(unfun := [p]), [p][1..]);
    StartInv(objs, [t]);
    s := State(Build(EMPTY_QUEUE, objs).value, [t], 0);
  }

  /**
   An object of 8 bytes and a pinned one of 4 bytes at 28, in 16 bytes from 16 on: the first would fit at 16, but the
   gap is used in blocks of 4 bytes, and the untypeds run out.
   */
  lemma {:induction false} GapTooFine(t: Tagged, f: Object, p: Object)
    requires t == Tagged(Ut("u", 4, 16, 0, []), false) && f == Object("f", 3, None) && p == Object("p", 2, Some(28))
    ensures FreshSupply([t]) && Allocate([f, p], [t]).failure == Some(OutOfUntyped)
    ensures Allocate([f.(paddr := Some(16)), p], [t]).failure == None
  {
    assert Pow2(2) == 4;
    assert Pow2(3) == 8;
    assert Pow2(4) == 16;
    assert Aligned(16, 4) && Aligned(28, 2) && !Aligned(28, 3) && Aligned(16, 3);
    FreshIsLaid(t.ut);
    assert FreshSupply([t]);
    assert Inside(p, [t][0].ut) && Covered(p, [t]);
    LeftInGap([f, p], t, f, p);
    var g := f.(paddr := Some(16));
    assert Inside(g, [t][0].ut) && Covered(g, [t]);
    assert NoOverlap(g, p);
    AllocatePinned([g, p], [t]);
  }
}
