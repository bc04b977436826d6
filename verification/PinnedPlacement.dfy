/**
 When the pinned objects of a spec can be placed: the first loop of `allocate` is compared with a
 condition on addresses alone.
 */
module PinnedPlacement {
  import opened Wrappers
  import opened Arithmetic
  import opened Untypeds
  import opened BestFit
  import opened Allocation

  function EndOf(o: Object): nat
    requires Pinned(o)
  {
    o.paddr.value + Pow2(o.sizeBits)
  }

  // ----- one state of the loop -----

  /** The first free address of untyped `i`. */
  function FreeFrom(s: State, i: nat): nat
    requires i < |s.all|
  {
    if i == s.c then s.all[i].ut.WatermarkPaddr() else s.all[i].ut.paddr
  }

  /** The object lies in what is free of untyped `i`. */
  predicate PlaceAt(s: State, o: Object, i: nat)
    requires Pinned(o) && i < |s.all|
  {
    FreeFrom(s, i) <= o.paddr.value && EndOf(o) <= s.all[i].ut.End()
  }

  ghost predicate HasPlace(s: State, o: Object)
    requires Pinned(o)
  {
    exists i: nat :: s.c <= i < |s.all| && PlaceAt(s, o, i)
  }

  /** The object is aligned and inside a free part. */
  ghost predicate Placeable(s: State, o: Object)
    requires Pinned(o)
  {
    Aligned(o.paddr.value, o.sizeBits) && HasPlace(s, o)
  }

  predicate Apart(os: seq<Object>)
    requires AllPinned(os)
  {
    forall i, j :: 0 <= i < j < |os| ==> EndOf(os[i]) <= os[j].paddr.value
  }

  ghost predicate AllPlaceable(s: State, os: seq<Object>)
    requires AllPinned(os)
  {
    forall k :: 0 <= k < |os| ==> Placeable(s, os[k])
  }

  /** All waiting pinned objects can be placed side by side. */
  ghost predicate PinnedOk(s: State)
    requires AllPinned(s.q.unfun)
  {
    AllPlaceable(s, s.q.unfun) && Apart(s.q.unfun)
  }

  /** The untypeds from the current one on are in order, and those behind it unused. */
  predicate Ahead(s: State) {
    && (forall i, j :: s.c <= i < j < |s.all| ==> s.all[i].ut.End() <= s.all[j].ut.paddr)
    && (forall i :: s.c < i < |s.all| ==> s.all[i].ut.watermark == 0)
  }

  /** Behind the current untyped nothing has changed. */
  lemma {:induction false} SameRest(s: State, s': State, i: nat)
    requires Inv(s) && s'.c == s.c && |s'.all| == |s.all| && s'.Rest() == s.Rest() && s.c < i < |s.all|
    ensures s'.all[i] == s.all[i]
  {
    assert s'.Rest()[i - s.c - 1] == s.Rest()[i - s.c - 1];
  }

  // ----- the loop goes on -----

  /** An object beyond the current untyped has a place if and only if it has one behind it. */
  lemma {:induction false} PlaceBehind(s: State, s': State, o: Object)
    requires Inv(s) && Inv(s') && Ahead(s) && Pinned(o) && s.Cur().ut.End() <= o.paddr.value
    requires MovedOn(s, s')
    ensures HasPlace(s, o) <==> HasPlace(s', o)
  {
    if HasPlace(s, o) {
      var i: nat :| s.c <= i < |s.all| && PlaceAt(s, o, i);
      assert PlaceAt(s', o, i);
    }
    if HasPlace(s', o) {
      var i: nat :| s'.c <= i < |s'.all| && PlaceAt(s', o, i);
      assert PlaceAt(s, o, i);
    }
  }

  /** The loop has used up the current untyped, or gone on to the next, with the same objects waiting. */
  predicate MovedOn(s: State, s': State)
    requires Inv(s) && Inv(s')
  {
    && s'.q.unfun == s.q.unfun && |s'.all| == |s.all|
    && (forall i :: s.c < i < |s.all| ==> s'.all[i] == s.all[i])
    && (s'.c == s.c + 1
        || (s'.c == s.c && SameUntyped(s.Cur().ut, s'.Cur().ut) && s'.Cur().ut.WatermarkPaddr() == s.Cur().ut.End()))
  }

  /** If the first object does not fit the current untyped, nothing is lost by moving on. */
  lemma {:induction false} MoveOn(s: State, s': State)
    requires Inv(s) && Inv(s') && Ahead(s) && s.q.unfun != [] && MovedOn(s, s')
    requires !PlaceAt(s, s.q.unfun[0], s.c)
    ensures Ahead(s') && (PinnedOk(s) <==> PinnedOk(s'))
  {
    var os := s.q.unfun;
    if HasPlace(s, os[0]) {
      var i: nat :| s.c <= i < |s.all| && PlaceAt(s, os[0], i);
      assert s.Cur().ut.End() <= os[0].paddr.value;
    }
    if HasPlace(s', os[0]) { BeyondCurrent(s, s', os[0]); }
    if s.Cur().ut.End() <= os[0].paddr.value {
      forall k | 0 <= k < |os| ensures HasPlace(s, os[k]) <==> HasPlace(s', os[k]) {
        PlaceBehind(s, s', os[k]);
      }
      assert AllPlaceable(s, os) <==> AllPlaceable(s', os) by {
        assert forall k :: 0 <= k < |os| ==> (Placeable(s, os[k]) <==> Placeable(s', os[k]));
      }
    } else {
      assert !Placeable(s, os[0]) && !Placeable(s', os[0]);
    }
  }

  lemma {:induction false} BeyondCurrent(s: State, s': State, o: Object)
    requires Inv(s) && Inv(s') && Ahead(s) && Pinned(o) && MovedOn(s, s') && HasPlace(s', o)
    ensures s.Cur().ut.End() <= o.paddr.value
  {
    var i: nat :| s'.c <= i < |s'.all| && PlaceAt(s', o, i);
    if i > s.c { assert s.Cur().ut.End() <= s.all[i].ut.paddr; }
  }

  /** In the last untyped an object that does not fit has no place. */
  lemma {:induction false} NoPlaceLeft(s: State)
    requires Inv(s) && s.q.unfun != [] && s.Last() && !PlaceAt(s, s.q.unfun[0], s.c)
    ensures !PinnedOk(s)
  {
    assert !Placeable(s, s.q.unfun[0]);
  }

  /** An object below the watermark has no place. */
  lemma {:induction false} TooLate(s: State)
    requires Inv(s) && Ahead(s) && s.q.unfun != [] && s.q.unfun[0].paddr.value < s.Cur().ut.WatermarkPaddr()
    ensures !PinnedOk(s)
  {
    var o := s.q.unfun[0];
    assert s.Cur().ut.WatermarkPaddr() <= s.Cur().ut.End();
    forall i: nat | s.c <= i < |s.all| ensures !PlaceAt(s, o, i) {
      if i > s.c { assert s.Cur().ut.End() <= s.all[i].ut.paddr; }
    }
    assert !Placeable(s, o);
  }

  // ----- the loop places an object -----

  /** The first object has been placed in the current untyped, up to whose end nothing else changes. */
  predicate PlacedFirst(s: State, s': State)
    requires Inv(s) && Inv(s') && s.q.unfun != []
  {
    && s'.q.unfun == s.q.unfun[1..] && |s'.all| == |s.all| && s'.c == s.c
    && (forall i :: s.c < i < |s.all| ==> s'.all[i] == s.all[i])
    && SameUntyped(s.Cur().ut, s'.Cur().ut) && s'.Cur().ut.WatermarkPaddr() == EndOf(s.q.unfun[0])
  }

  lemma {:induction false} PlaceAfter(s: State, s': State, o: Object)
    requires Inv(s) && Inv(s') && Ahead(s) && s.q.unfun != [] && PlacedFirst(s, s') && Pinned(o)
    requires PlaceAt(s, s.q.unfun[0], s.c)
    ensures HasPlace(s', o) <==> HasPlace(s, o) && EndOf(s.q.unfun[0]) <= o.paddr.value
  {
    if HasPlace(s', o) {
      var i: nat :| s'.c <= i < |s'.all| && PlaceAt(s', o, i);
      if i > s.c { assert s.Cur().ut.End() <= s.all[i].ut.paddr; }
      assert PlaceAt(s, o, i);
    }
    if HasPlace(s, o) && EndOf(s.q.unfun[0]) <= o.paddr.value {
      var i: nat :| s.c <= i < |s.all| && PlaceAt(s, o, i);
      assert PlaceAt(s', o, i);
    }
  }

  lemma {:induction false} PlaceFirst(s: State, s': State)
    requires Inv(s) && Inv(s') && Ahead(s) && s.q.unfun != [] && PlacedFirst(s, s')
    requires PlaceAt(s, s.q.unfun[0], s.c) && Aligned(s.q.unfun[0].paddr.value, s.q.unfun[0].sizeBits)
    ensures Ahead(s') && (PinnedOk(s) <==> PinnedOk(s'))
  {
    var os, rest := s.q.unfun, s.q.unfun[1..];
    forall k | 0 <= k < |rest|
      ensures Placeable(s', rest[k]) <==> Placeable(s, os[k + 1]) && EndOf(os[0]) <= os[k + 1].paddr.value
    {
      PlaceAfter(s, s', rest[k]);
    }
    assert HasPlace(s, os[0]) && Placeable(s, os[0]);
    RestApart(s, s');
  }

  lemma {:induction false} RestApart(s: State, s': State)
    requires Inv(s) && Inv(s') && s.q.unfun != [] && s'.q.unfun == s.q.unfun[1..] && Placeable(s, s.q.unfun[0])
    requires forall k :: 0 <= k < |s'.q.unfun| ==>
      (Placeable(s', s'.q.unfun[k]) <==>
         Placeable(s, s.q.unfun[k + 1]) && EndOf(s.q.unfun[0]) <= s.q.unfun[k + 1].paddr.value)
    ensures PinnedOk(s) <==> PinnedOk(s')
  {
    var os, rest := s.q.unfun, s.q.unfun[1..];
    assert forall k :: 0 <= k < |rest| ==> rest[k] == os[k + 1];
    if PinnedOk(s') {
      forall k | 0 <= k < |os| ensures Placeable(s, os[k]) { if k > 0 { assert Placeable(s', rest[k - 1]); } }
      forall i, j | 0 <= i < j < |os| ensures EndOf(os[i]) <= os[j].paddr.value {
        if i == 0 { assert Placeable(s', rest[j - 1]); } else { assert os[i] == rest[i - 1] && os[j] == rest[j - 1]; }
      }
    }
  }

  // ----- one step, and all of them -----

  lemma {:induction false} ReachOk(s: State)
    requires Inv(s) && Ahead(s) && s.q.unfun != [] && FitsHere(s)
    ensures if Reach(s).Done? then Ahead(Reach(s).s) && (PinnedOk(s) <==> PinnedOk(Reach(s).s)) else !PinnedOk(s)
  {
    var o := s.q.unfun[0];
    var s1 := AfterUse(s, o, o.paddr.value - s.Cur().ut.WatermarkPaddr());
    if Aligned(o.paddr.value, o.sizeBits) {
      ReachPlaced(s, s1, o);
      PlacedSame(s, s1, PlacePinned(s1));
      PlaceFirst(s, PlacePinned(s1));
    } else {
      assert !Placeable(s, o);
    }
  }

  lemma {:induction false} PlacedSame(s: State, s1: State, s2: State)
    requires Inv(s) && Inv(s1) && Inv(s2) && s.q.unfun != [] && FitsHere(s)
    requires s1 == UseCur(s, s.q.unfun[0].paddr.value - s.Cur().ut.WatermarkPaddr())
    requires s1.q.unfun == s.q.unfun && s2 == PlacePinned(s1)
    ensures PlacedFirst(s, s2)
  {
    forall i | s.c < i < |s.all| ensures s2.all[i] == s.all[i] { SameRest(s, s1, i); }
  }

  lemma {:induction false} BodyOk(s: State)
    requires Inv(s) && Ahead(s) && s.q.unfun != []
    ensures var r := PinnedBody(s);
            if r.Done? then Ahead(r.s) && (PinnedOk(s) <==> PinnedOk(r.s)) else !PinnedOk(s)
  {
    if s.q.unfun[0].paddr.value < s.Cur().ut.WatermarkPaddr() {
      TooLate(s);
    } else if FitsHere(s) {
      ReachOk(s);
    } else if s.q.fun != map[] {
      UsedUp(s);
      MoveOn(s, UseCur(s, s.Cur().ut.Remaining()));
    } else if s.Last() {
      NoPlaceLeft(s);
    } else {
      MoveOn(s, NextUt(s));
    }
  }

  lemma {:induction false} UsedUp(s: State)
    requires Inv(s)
    ensures MovedOn(s, UseCur(s, s.Cur().ut.Remaining()))
  {
    var s' := UseCur(s, s.Cur().ut.Remaining());
    forall i | s.c < i < |s.all| ensures s'.all[i] == s.all[i] { SameRest(s, s', i); }
  }

  lemma {:induction false} StepOk(s: State)
    requires Inv(s) && Ahead(s) && s.q.unfun != []
    ensures var r := PinnedStep(s);
            if r.Done? then Ahead(r.s) && (PinnedOk(s) <==> PinnedOk(r.s)) else !PinnedOk(s)
  {
    if s.Cur().ut.Remaining() > 0 {
      BodyOk(s);
    } else if s.Last() {
      NoPlaceLeft(s);
    } else {
      MoveOn(s, NextUt(s));
      BodyOk(NextUt(s));
    }
  }

  /** The pinned loop ends without an exception if and only if all waiting pinned objects can be placed. */
  lemma {:induction false} PinnedPhaseExact(s: State)
    requires Inv(s) && Ahead(s)
    ensures PinnedPhase(s).Done? <==> PinnedOk(s)
    decreases |s.all| - s.c, |s.q.unfun|, s.Cur().ut.Remaining()
  {
    if s.q.unfun != [] {
      StepOk(s);
      if PinnedStep(s).Done? {
        PinnedStepProgress(s);
        PinnedPhaseExact(PinnedStep(s).s);
      }
    }
  }

  // ----- from a list of objects -----

  predicate Inside(o: Object, u: Ut)
    requires Pinned(o)
  {
    u.paddr <= o.paddr.value && EndOf(o) <= u.End()
  }

  /** The object is aligned and lies inside one of the untypeds. */
  ghost predicate Covered(o: Object, supply: seq<Tagged>)
    requires Pinned(o)
  {
    Aligned(o.paddr.value, o.sizeBits) && exists i :: 0 <= i < |supply| && Inside(o, supply[i].ut)
  }

  predicate NoOverlap(o: Object, p: Object)
    requires Pinned(o) && Pinned(p)
  {
    EndOf(o) <= p.paddr.value || EndOf(p) <= o.paddr.value
  }

  /** The pinned objects of a list can be placed: a condition on addresses alone. */
  ghost predicate PinnedFit(objs: seq<Object>, supply: seq<Tagged>) {
    && (forall k :: 0 <= k < |objs| && Pinned(objs[k]) ==> Covered(objs[k], supply))
    && (forall i, j :: 0 <= i < j < |objs| && Pinned(objs[i]) && Pinned(objs[j]) ==> NoOverlap(objs[i], objs[j]))
  }

  /** Unused untypeds in order of address, device memory among them. */
  predicate FreshSupply(ts: seq<Tagged>) {
    && AllReady(ts)
    && (forall i :: 0 <= i < |ts| ==> ts[i].ut.Fresh())
    && (forall i, j :: 0 <= i < j < |ts| ==> ts[i].ut.End() <= ts[j].ut.paddr)
  }

  /** The queue is built, and the first loop ends, without an exception. */
  ghost predicate PlacesPinned(objs: seq<Object>, supply: seq<Tagged>)
    requires AllReady(supply) && supply != []
  {
    && Build(EMPTY_QUEUE, objs).Some?
    && (StartInv(objs, supply);
        PinnedPhase(State(Build(EMPTY_QUEUE, objs).value, supply, 0)).Done?)
  }

  predicate PaddrsDiffer(os: seq<Object>, objs: seq<Object>)
    requires AllPinned(os)
  {
    && (forall i, j :: 0 <= i < |os| && 0 <= j < |objs| && Pinned(objs[j]) ==> os[i].paddr != objs[j].paddr)
    && (forall i, j :: 0 <= i < j < |objs| && Pinned(objs[i]) && Pinned(objs[j]) ==> objs[i].paddr != objs[j].paddr)
  }

  /** Objects with different addresses are all accepted by the queue. */
  lemma {:induction false} BuildSucceeds(q: Queue, objs: seq<Object>)
    requires ValidQueue(q) && PaddrsDiffer(q.unfun, objs)
    ensures Build(q, objs).Some?
    decreases |objs|
  {
    if objs != [] {
      var o, rest := objs[0], objs[1..];
      if Pinned(o) { assert Push(q, o) == PushUnfun(q, o) && Push(q, o).Some?; }
      PushKeepsValid(q, o);
      var q' := Push(q, o).value;
      forall i, j | 0 <= i < |q'.unfun| && 0 <= j < |rest| && Pinned(rest[j])
        ensures q'.unfun[i].paddr != rest[j].paddr
      {
        PushedFrom(q, o, i);
        assert rest[j] == objs[j + 1];
      }
      assert PaddrsDiffer(q'.unfun, rest);
      BuildSucceeds(q', rest);
    }
  }

  lemma {:induction false} PushedFrom(q: Queue, o: Object, i: nat)
    requires ValidQueue(q) && Push(q, o).Some? && i < |Push(q, o).value.unfun|
    ensures var x := Push(q, o).value.unfun[i];
            (Pinned(o) && x == o) || exists k :: 0 <= k < |q.unfun| && q.unfun[k] == x
  {
    if Pinned(o) {
      var at := PinnedIndex(q.unfun, o.paddr.value);
      assert Push(q, o).value.unfun == q.unfun[..at] + [o] + q.unfun[at..];
      var x := Push(q, o).value.unfun[i];
      if i < at { assert x == q.unfun[i]; }
      if i > at { assert x == q.unfun[i - 1]; }
    } else {
      assert Push(q, o).value.unfun[i] == q.unfun[i];
    }
  }

  /** The queue holds the pinned objects of the list, each as often as the list does. */
  lemma {:induction false} PinnedQueued(objs: seq<Object>, o: Object)
    requires Build(EMPTY_QUEUE, objs).Some? && Pinned(o)
    ensures multiset(Build(EMPTY_QUEUE, objs).value.unfun)[o] == multiset(objs)[o]
    ensures ValidQueue(Build(EMPTY_QUEUE, objs).value)
  {
    BuildCounts(EMPTY_QUEUE, objs, o);
    var q := Build(EMPTY_QUEUE, objs).value;
    if o.sizeBits in q.fun {
      var level := q.fun[o.sizeBits];
      assert ValidLevel(o.sizeBits, level) && o !in level;
      assert o !in multiset(level);
    }
  }

  lemma {:induction false} InQueue(objs: seq<Object>, o: Object)
    requires Build(EMPTY_QUEUE, objs).Some?
    ensures ValidQueue(Build(EMPTY_QUEUE, objs).value)
    ensures Pinned(o) && o in objs <==> o in Build(EMPTY_QUEUE, objs).value.unfun
  {
    BuildCounts(EMPTY_QUEUE, objs, o);
    var os := Build(EMPTY_QUEUE, objs).value.unfun;
    if Pinned(o) {
      PinnedQueued(objs, o);
      assert o in os <==> o in multiset(os);
      assert o in objs <==> o in multiset(objs);
    }
  }

  /** At the start a place is an untyped around the object. */
  lemma {:induction false} StartPlaceable(q: Queue, supply: seq<Tagged>, o: Object)
    requires FreshSupply(supply) && supply != [] && Pinned(o)
    ensures Placeable(State(q, supply, 0), o) <==> Covered(o, supply)
  {
    var s := State(q, supply, 0);
    assert forall i :: 0 <= i < |supply| ==> (PlaceAt(s, o, i) <==> Inside(o, supply[i].ut));
  }

  lemma {:induction false} TwoOf(objs: seq<Object>, i: nat, j: nat)
    requires i < j < |objs| && objs[i] == objs[j]
    ensures multiset(objs)[objs[i]] >= 2
  {
    assert objs == objs[..j] + objs[j..];
    assert objs[i] in objs[..j] && objs[j] in objs[j..];
    assert objs[i] in multiset(objs[..j]) && objs[i] in multiset(objs[j..]);
  }

  lemma {:induction false} OnceQueued(os: seq<Object>, o: Object)
    requires SortedPinned(os)
    ensures multiset(os)[o] <= 1
  {
    if o in multiset(os) {
      var i :| 0 <= i < |os| && os[i] == o;
      assert os == os[..i] + [o] + os[i + 1..];
      assert o !in os[..i] && o !in os[i + 1..];
      assert o !in multiset(os[..i]) && o !in multiset(os[i + 1..]);
    }
  }

  /** In the queue the objects are in order, so that only neighbours in address can overlap. */
  lemma {:induction false} ApartInQueue(objs: seq<Object>)
    requires Build(EMPTY_QUEUE, objs).Some?
    ensures ValidQueue(Build(EMPTY_QUEUE, objs).value)
    ensures Apart(Build(EMPTY_QUEUE, objs).value.unfun) <==>
            forall i, j :: 0 <= i < j < |objs| && Pinned(objs[i]) && Pinned(objs[j]) ==> NoOverlap(objs[i], objs[j])
  {
    BuildCounts(EMPTY_QUEUE, objs, Object("", 0, None));
    var os := Build(EMPTY_QUEUE, objs).value.unfun;
    if Apart(os) {
      forall i, j | 0 <= i < j < |objs| && Pinned(objs[i]) && Pinned(objs[j]) ensures NoOverlap(objs[i], objs[j]) {
        ListedApart(objs, i, j);
      }
    }
    if forall i, j :: 0 <= i < j < |objs| && Pinned(objs[i]) && Pinned(objs[j]) ==> NoOverlap(objs[i], objs[j]) {
      forall a, b | 0 <= a < b < |os| ensures EndOf(os[a]) <= os[b].paddr.value { QueuedApart(objs, a, b); }
    }
  }

  lemma {:induction false} ListedApart(objs: seq<Object>, i: nat, j: nat)
    requires Build(EMPTY_QUEUE, objs).Some? && ValidQueue(Build(EMPTY_QUEUE, objs).value)
    requires Apart(Build(EMPTY_QUEUE, objs).value.unfun) && i < j < |objs| && Pinned(objs[i]) && Pinned(objs[j])
    ensures NoOverlap(objs[i], objs[j])
  {
    var os := Build(EMPTY_QUEUE, objs).value.unfun;
    InQueue(objs, objs[i]);
    InQueue(objs, objs[j]);
    var a :| 0 <= a < |os| && os[a] == objs[i];
    var b :| 0 <= b < |os| && os[b] == objs[j];
    if a == b {
      TwoOf(objs, i, j);
      PinnedQueued(objs, objs[i]);
      OnceQueued(os, objs[i]);
      assert false;
    } else if a < b {
      assert EndOf(os[a]) <= os[b].paddr.value;
    } else {
      assert EndOf(os[b]) <= os[a].paddr.value;
    }
  }

  lemma {:induction false} QueuedApart(objs: seq<Object>, a: nat, b: nat)
    requires Build(EMPTY_QUEUE, objs).Some? && ValidQueue(Build(EMPTY_QUEUE, objs).value)
    requires forall i, j :: 0 <= i < j < |objs| && Pinned(objs[i]) && Pinned(objs[j]) ==> NoOverlap(objs[i], objs[j])
    requires a < b < |Build(EMPTY_QUEUE, objs).value.unfun|
    ensures var os := Build(EMPTY_QUEUE, objs).value.unfun; EndOf(os[a]) <= os[b].paddr.value
  {
    var os := Build(EMPTY_QUEUE, objs).value.unfun;
    InQueue(objs, os[a]);
    InQueue(objs, os[b]);
    var i :| 0 <= i < |objs| && objs[i] == os[a];
    var j :| 0 <= j < |objs| && objs[j] == os[b];
    assert os[a].paddr.value < os[b].paddr.value;
    assert NoOverlap(os[a], os[b]) by { if i < j { assert NoOverlap(objs[i], objs[j]); }
           else { assert NoOverlap(objs[j], objs[i]); } }
  }

  lemma {:induction false} StartOk(objs: seq<Object>, supply: seq<Tagged>)
    requires FreshSupply(supply) && supply != [] && Build(EMPTY_QUEUE, objs).Some?
    ensures ValidQueue(Build(EMPTY_QUEUE, objs).value)
    ensures PinnedOk(State(Build(EMPTY_QUEUE, objs).value, supply, 0)) <==> PinnedFit(objs, supply)
  {
    ApartInQueue(objs);
    var q := Build(EMPTY_QUEUE, objs).value;
    var s, os := State(q, supply, 0), q.unfun;
    if AllPlaceable(s, os) {
      forall k | 0 <= k < |objs| && Pinned(objs[k]) ensures Covered(objs[k], supply) {
        InQueue(objs, objs[k]);
        var a :| 0 <= a < |os| && os[a] == objs[k];
        assert Placeable(s, os[a]);
        StartPlaceable(q, supply, os[a]);
      }
    }
    if PinnedFit(objs, supply) {
      forall a | 0 <= a < |os| ensures Placeable(s, os[a]) {
        InQueue(objs, os[a]);
        var k :| 0 <= k < |objs| && objs[k] == os[a];
        assert Covered(objs[k], supply);
        StartPlaceable(q, supply, os[a]);
      }
    }
  }

  /**
   Over unused, ordered untypeds the queue is built and the pinned loop ends without an exception if and only if every
   pinned object is aligned and lies inside one untyped, and no two of them overlap. What else is in the spec, and what
   of it is placed in the gaps, makes no difference.
   */
  lemma {:induction false} PinnedExact(objs: seq<Object>, supply: seq<Tagged>)
    requires FreshSupply(supply) && supply != []
    ensures PlacesPinned(objs, supply) <==> PinnedFit(objs, supply)
  {
    if PinnedFit(objs, supply) {
      assert PaddrsDiffer([], objs) by {
        forall i, j | 0 <= i < j < |objs| && Pinned(objs[i]) && Pinned(objs[j]) ensures objs[i].paddr != objs[j].paddr {
          assert NoOverlap(objs[i], objs[j]);
        }
      }
      BuildSucceeds(EMPTY_QUEUE, objs);
    }
    if Build(EMPTY_QUEUE, objs).Some? {
      StartOk(objs, supply);
      StartInv(objs, supply);
      PinnedPhaseExact(State(Build(EMPTY_QUEUE, objs).value, supply, 0));
    }
  }

  lemma {:induction false} FungibleFailure(s: State)
    requires Inv(s)
    ensures FungiblePhase(s).Raised? ==> FungiblePhase(s).why == OutOfUntyped
    decreases |s.all| - s.c
  {
    if s.q.fun != map[] && !s.Last() {
      var s' := FungibleNext(s);
      FungibleFailure(s');
    }
  }

  /** Without fungible objects at the start there are none later. */
  lemma {:induction false} NoFungible(s: State, s': State)
    requires Inv(s) && Sound(s, s') && s.q.fun == map[] && forall i :: 0 <= i < |s.all| ==> s.all[i].ut.Fresh()
    ensures s'.q.fun == map[]
  {
    forall k ensures k !in s'.q.fun {
      if k in s'.q.fun {
        var level := s'.q.fun[k];
        assert ValidLevel(k, level) && level[0] in level;
        var o := level[0];
        NothingHeld(s.all, o);
        assert Ledger(s', o) == Ledger(s, o);
        assert o in multiset(level);
        NotWaiting(s.q, o);
        assert false;
      }
    }
  }

  lemma {:induction false} NotWaiting(q: Queue, o: Object)
    requires ValidQueue(q) && q.fun == map[] && Fungible(o)
    ensures Waiting(q, o) == 0
  {
    assert o !in q.unfun;
    assert o !in multiset(q.unfun);
  }

  lemma {:induction false} BuildNoFungible(objs: seq<Object>)
    requires Build(EMPTY_QUEUE, objs).Some? && forall k :: 0 <= k < |objs| ==> !Fungible(objs[k])
    ensures Build(EMPTY_QUEUE, objs).value.fun == map[]
  {
    var q := Build(EMPTY_QUEUE, objs).value;
    BuildCounts(EMPTY_QUEUE, objs, Object("", 0, None));
    forall k ensures k !in q.fun {
      if k in q.fun {
        var o := Unqueued(objs, k);
        assert false;
      }
    }
  }

  lemma {:induction false} Unqueued(objs: seq<Object>, k: nat) returns (o: Object)
    requires Build(EMPTY_QUEUE, objs).Some? && k in Build(EMPTY_QUEUE, objs).value.fun
    ensures o in objs && Fungible(o)
  {
    BuildCounts(EMPTY_QUEUE, objs, Object("", 0, None));
    var level := Build(EMPTY_QUEUE, objs).value.fun[k];
    assert ValidLevel(k, level) && level[0] in level;
    o := level[0];
    BuildCounts(EMPTY_QUEUE, objs, o);
    assert o in multiset(level);
    assert o in multiset(objs);
  }

  /**
   For whole runs of `allocate`: success needs the pinned objects to fit; if they do, the only failure left is that
   untypeds run out, and this does not occur when there are no other sized objects.
   */
  lemma {:induction false} AllocatePinned(objs: seq<Object>, supply: seq<Tagged>)
    requires FreshSupply(supply) && supply != [] && objs != []
    ensures var f := Allocate(objs, supply).failure;
            && (f.None? ==> PinnedFit(objs, supply))
            && (PinnedFit(objs, supply) ==> f.None? || f == Some(OutOfUntyped))
            && (PinnedFit(objs, supply) && (forall k :: 0 <= k < |objs| ==> !Fungible(objs[k])) ==> f.None?)
  {
    PinnedExact(objs, supply);
    if Build(EMPTY_QUEUE, objs).Some? {
      StartInv(objs, supply);
      var s := State(Build(EMPTY_QUEUE, objs).value, supply, 0);
      RunUnfold(s);
      if PinnedPhase(s).Done? {
        var s1 := PinnedPhase(s).s;
        FungibleFailure(TopUp(s1));
        if forall k :: 0 <= k < |objs| ==> !Fungible(objs[k]) {
          BuildNoFungible(objs);
          PinnedPhaseSound(s);
          TopUpSound(s1);
          SoundTransitive(s, s1, TopUp(s1));
          NoFungible(s, TopUp(s1));
        }
      }
    }
  }
}
