/**
 Why a run of `allocate` fails: the object that an exception names is at fault.
 */
module FailureReasons {
  import opened Wrappers
  import opened Arithmetic
  import opened Untypeds
  import opened BestFit
  import opened Allocation
  import opened PinnedPlacement

  /** Another of the objects overlaps this one. */
  ghost predicate Crowded(os: seq<Object>, o: Object)
    requires Pinned(o)
  {
    exists p :: p in os && p != o && Pinned(p) && !NoOverlap(p, o)
  }

  /** The waiting object has no place, or not for itself. */
  ghost predicate Homeless(s: State, o: Object) {
    o in s.q.unfun && Pinned(o) && (!HasPlace(s, o) || Crowded(s.q.unfun, o))
  }

  ghost predicate Blamed(s: State, why: Failure) {
    match why
    case Misaligned(o) => o in s.q.unfun && Pinned(o) && !Aligned(o.paddr.value, o.sizeBits)
    case NoUntypedFor(o) => Homeless(s, o)
    case OutOfUntyped => exists o :: Homeless(s, o)
    case DuplicatePaddr => false
  }

  lemma {:induction false} FirstOverlaps(os: seq<Object>, o: Object)
    requires SortedPinned(os) && o in os && o != os[0] && EndOf(os[0]) > o.paddr.value
    ensures Crowded(os, o)
  {
    var i :| 0 <= i < |os| && os[i] == o;
    assert os[0] in os && os[0].paddr.value < o.paddr.value;
  }

  /** Who is homeless after the loop has moved on was so before. */
  lemma {:induction false} MovedBlame(s: State, s': State, o: Object)
    requires Inv(s) && Inv(s') && Ahead(s) && s.q.unfun != [] && MovedOn(s, s') && Homeless(s', o)
    requires !PlaceAt(s, s.q.unfun[0], s.c)
    requires s.q.unfun[0].paddr.value >= s.Cur().ut.WatermarkPaddr() || s.Cur().ut.Remaining() == 0
    ensures Homeless(s, o)
  {
    if !Crowded(s.q.unfun, o) && HasPlace(s, o) {
      var i: nat :| s.c <= i < |s.all| && PlaceAt(s, o, i);
      if i > s.c { PlaceLater(s, s', o, i); } else { FirstOverlaps(s.q.unfun, o); }
    }
  }

  lemma {:induction false} PlaceLater(s: State, s': State, o: Object, i: nat)
    requires Inv(s) && Inv(s') && Ahead(s) && MovedOn(s, s') && s.c < i < |s.all| && Pinned(o) && PlaceAt(s, o, i)
    ensures HasPlace(s', o)
  {
    assert PlaceAt(s', o, i);
  }

  lemma {:induction false} PlacedBlame(s: State, s': State, o: Object)
    requires Inv(s) && Inv(s') && Ahead(s) && s.q.unfun != [] && PlacedFirst(s, s') && Homeless(s', o)
    requires PlaceAt(s, s.q.unfun[0], s.c)
    ensures Homeless(s, o)
  {
    var os := s.q.unfun;
    assert o in os[1..];
    assert forall p :: p in os[1..] ==> p in os;
    PlaceAfter(s, s', o);
    var i :| 0 <= i < |os[1..]| && os[1..][i] == o;
    assert os[0].paddr.value < os[i + 1].paddr.value;
    if EndOf(os[0]) > o.paddr.value { FirstOverlaps(os, o); }
  }

  /** The blame after a step that goes on lies where it lay before. */
  ghost predicate BlameKept(s: State, s': State) {
    && (forall o :: o in s'.q.unfun ==> o in s.q.unfun)
    && forall o :: Homeless(s', o) ==> Homeless(s, o)
  }

  lemma {:induction false} KeptBlame(s: State, s': State, why: Failure)
    requires BlameKept(s, s') && Blamed(s', why)
    ensures Blamed(s, why)
  {
  }

  lemma {:induction false} MovedKept(s: State, s': State)
    requires Inv(s) && Inv(s') && Ahead(s) && s.q.unfun != [] && MovedOn(s, s')
    requires !PlaceAt(s, s.q.unfun[0], s.c)
    requires s.q.unfun[0].paddr.value >= s.Cur().ut.WatermarkPaddr() || s.Cur().ut.Remaining() == 0
    ensures BlameKept(s, s')
  {
    forall o | Homeless(s', o) ensures Homeless(s, o) { MovedBlame(s, s', o); }
  }

  lemma {:induction false} ReachBlame(s: State)
    requires Inv(s) && Ahead(s) && s.q.unfun != [] && FitsHere(s)
    ensures match Reach(s) case Done(s') => BlameKept(s, s') case Raised(why, _) => Blamed(s, why)
  {
    var o := s.q.unfun[0];
    if Aligned(o.paddr.value, o.sizeBits) {
      var s' := ReachDone(s, o);
      PlacedKept(s, s');
    }
  }

  lemma {:induction false} ReachDone(s: State, o: Object) returns (s': State)
    requires Inv(s) && s.q.unfun != [] && FitsHere(s) && o == s.q.unfun[0] && Aligned(o.paddr.value, o.sizeBits)
    ensures Reach(s) == Done(s') && Inv(s') && PlacedFirst(s, s')
  {
    var s1 := AfterUse(s, o, o.paddr.value - s.Cur().ut.WatermarkPaddr());
    ReachPlaced(s, s1, o);
    s' := PlacePinned(s1);
    PlacedSame(s, s1, s');
  }

  lemma {:induction false} PlacedKept(s: State, s': State)
    requires Inv(s) && Inv(s') && Ahead(s) && s.q.unfun != [] && PlacedFirst(s, s') && PlaceAt(s, s.q.unfun[0], s.c)
    ensures BlameKept(s, s')
  {
    forall o | Homeless(s', o) ensures Homeless(s, o) { PlacedBlame(s, s', o); }
    assert forall o :: o in s.q.unfun[1..] ==> o in s.q.unfun;
  }

  lemma {:induction false} BodyBlame(s: State)
    requires Inv(s) && Ahead(s) && s.q.unfun != []
    ensures match PinnedBody(s) case Done(s') => BlameKept(s, s') case Raised(why, _) => Blamed(s, why)
  {
    var o := s.q.unfun[0];
    if o.paddr.value < s.Cur().ut.WatermarkPaddr() {
      BelowHasNone(s);
    } else if FitsHere(s) {
      ReachBlame(s);
    } else if s.q.fun != map[] {
      UsedUp(s);
      MovedKept(s, UseCur(s, s.Cur().ut.Remaining()));
    } else if s.Last() {
      assert Homeless(s, o);
    } else {
      MovedKept(s, NextUt(s));
    }
  }

  lemma {:induction false} BelowHasNone(s: State)
    requires Inv(s) && Ahead(s) && s.q.unfun != [] && s.q.unfun[0].paddr.value < s.Cur().ut.WatermarkPaddr()
    ensures Homeless(s, s.q.unfun[0])
  {
    var o := s.q.unfun[0];
    assert s.Cur().ut.WatermarkPaddr() <= s.Cur().ut.End();
    forall i: nat | s.c <= i < |s.all| ensures !PlaceAt(s, o, i) {
      if i > s.c { assert s.Cur().ut.End() <= s.all[i].ut.paddr; }
    }
  }

  lemma {:induction false} StepBlame(s: State)
    requires Inv(s) && Ahead(s) && s.q.unfun != []
    ensures match PinnedStep(s) case Done(s') => BlameKept(s, s') case Raised(why, _) => Blamed(s, why)
  {
    if s.Cur().ut.Remaining() > 0 {
      BodyBlame(s);
    } else if s.Last() {
      assert Homeless(s, s.q.unfun[0]);
    } else {
      MoveOn(s, NextUt(s));
      MovedKept(s, NextUt(s));
      BodyBlame(NextUt(s));
      var r := PinnedBody(NextUt(s));
      if r.Raised? { KeptBlame(s, NextUt(s), r.why); }
    }
  }

  /** An exception of the pinned loop names an object that is at fault. */
  lemma {:induction false} PinnedBlame(s: State)
    requires Inv(s) && Ahead(s)
    ensures PinnedPhase(s).Raised? ==> Blamed(s, PinnedPhase(s).why)
    decreases |s.all| - s.c, |s.q.unfun|, s.Cur().ut.Remaining()
  {
    if s.q.unfun != [] {
      StepBlame(s);
      if PinnedStep(s).Done? {
        var s' := PinnedStep(s).s;
        StepOk(s);
        PinnedStepProgress(s);
        PinnedBlame(s');
        if PinnedPhase(s').Raised? { KeptBlame(s, s', PinnedPhase(s').why); }
      }
    }
  }

  // ----- from a list of objects -----

  ghost predicate InsideSome(o: Object, supply: seq<Tagged>)
    requires Pinned(o)
  {
    exists i :: 0 <= i < |supply| && Inside(o, supply[i].ut)
  }

  /** A pinned object of the list lies in no untyped, or overlaps another one. */
  ghost predicate Displaced(objs: seq<Object>, supply: seq<Tagged>, o: Object) {
    o in objs && Pinned(o) && (!InsideSome(o, supply) || Crowded(objs, o))
  }

  ghost predicate SamePaddrTwice(objs: seq<Object>) {
    exists i, j :: 0 <= i < j < |objs| && Pinned(objs[i]) && Pinned(objs[j]) && objs[i].paddr == objs[j].paddr
  }

  lemma {:induction false} StartHomeless(objs: seq<Object>, supply: seq<Tagged>, o: Object)
    requires FreshSupply(supply) && supply != [] && Build(EMPTY_QUEUE, objs).Some?
    requires Homeless(State(Build(EMPTY_QUEUE, objs).value, supply, 0), o)
    ensures Displaced(objs, supply, o)
  {
    var q := Build(EMPTY_QUEUE, objs).value;
    var s := State(q, supply, 0);
    InQueue(objs, o);
    assert forall i: nat :: i < |supply| ==> (PlaceAt(s, o, i) <==> Inside(o, supply[i].ut));
    if Crowded(q.unfun, o) {
      var p :| p in q.unfun && p != o && Pinned(p) && !NoOverlap(p, o);
      InQueue(objs, p);
    }
  }

  lemma {:induction false} BuiltDiffer(objs: seq<Object>)
    ensures Build(EMPTY_QUEUE, objs).None? <==> SamePaddrTwice(objs)
  {
    if Build(EMPTY_QUEUE, objs).Some? {
      forall i, j | 0 <= i < j < |objs| && Pinned(objs[i]) && Pinned(objs[j]) ensures objs[i].paddr != objs[j].paddr {
        QueuedDiffer(objs, i, j);
      }
    } else if !SamePaddrTwice(objs) {
      BuildSucceeds(EMPTY_QUEUE, objs);
    }
  }

  lemma {:induction false} QueuedDiffer(objs: seq<Object>, i: nat, j: nat)
    requires Build(EMPTY_QUEUE, objs).Some? && i < j < |objs| && Pinned(objs[i]) && Pinned(objs[j])
    ensures objs[i].paddr != objs[j].paddr
  {
    var os := Build(EMPTY_QUEUE, objs).value.unfun;
    InQueue(objs, objs[i]);
    InQueue(objs, objs[j]);
    var a :| 0 <= a < |os| && os[a] == objs[i];
    var b :| 0 <= b < |os| && os[b] == objs[j];
    if a == b {
      TwoOf(objs, i, j);
      PinnedQueued(objs, objs[i]);
      OnceQueued(os, objs[i]);
      assert false;
    } else if a < b {
      assert os[a].paddr.value < os[b].paddr.value;
    } else {
      assert os[b].paddr.value < os[a].paddr.value;
    }
  }

  /**
   The exceptions of `allocate`. The queue refuses a list if and only if two pinned objects have one address. A
   misaligned object is named as such; an object for which no untyped is said to be found lies in none, or overlaps
   another; and when untypeds run out although the pinned objects do not fit, one of them is such an object.
   */
  lemma {:induction false} FailureReason(objs: seq<Object>, supply: seq<Tagged>)
    requires FreshSupply(supply) && supply != [] && objs != []
    ensures var f := Allocate(objs, supply).failure;
            && (f == Some(DuplicatePaddr) <==> SamePaddrTwice(objs))
            && (f.Some? && f.value.Misaligned? ==>
                  f.value.obj in objs && Pinned(f.value.obj) && !Aligned(f.value.obj.paddr.value, f.value.obj.sizeBits))
            && (f.Some? && f.value.NoUntypedFor? ==> Displaced(objs, supply, f.value.obj))
            && (f == Some(OutOfUntyped) && !PinnedFit(objs, supply) ==> exists o :: Displaced(objs, supply, o))
  {
    BuiltDiffer(objs);
    PinnedExact(objs, supply);
    if Build(EMPTY_QUEUE, objs).Some? {
      StartInv(objs, supply);
      var s := State(Build(EMPTY_QUEUE, objs).value, supply, 0);
      RunUnfold(s);
      if PinnedPhase(s).Done? {
        FungibleFailure(TopUp(PinnedPhase(s).s));
      } else {
        PinnedBlame(s);
        forall o | Homeless(s, o) ensures Displaced(objs, supply, o) { StartHomeless(objs, supply, o); }
        forall o | o in s.q.unfun ensures o in objs && Pinned(o) { InQueue(objs, o); }
      }
    }
  }

  /** Without untypeds any list of objects fails, even if none of them has a size. */
  lemma {:induction false} NoUntypeds(objs: seq<Object>)
    requires objs != []
    ensures Allocate(objs, []).failure == Some(if SamePaddrTwice(objs) then DuplicatePaddr else OutOfUntyped)
  {
    BuiltDiffer(objs);
  }
}
