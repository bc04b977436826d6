/**
 `BestFitAllocator.allocate` as a state machine over values: pinned objects first, then the
 fungible rest, moving through the supplied untypeds in address order and never going back.
 */
module Allocation {
  import opened Wrappers
  import opened Arithmetic
  import opened Untypeds
  import opened BestFit

  datatype Tagged = Tagged(ut: Ut, device: bool)

  /** All the untypeds, and which of them is in use: those before it are left behind for good. */
  datatype State = State(q: Queue, all: seq<Tagged>, c: nat) {
    predicate Last() { c + 1 >= |all| }

    function Rest(): seq<Tagged>
      requires c < |all|
    {
      all[c + 1..]
    }

    function Cur(): Tagged
      requires c < |all|
    {
      all[c]
    }
  }

  datatype Failure = OutOfUntyped | NoUntypedFor(obj: Object) | Misaligned(obj: Object) | DuplicatePaddr

  /** `Raised` is an exception; the state is what the untypeds look like at that point. */
  datatype Outcome = Done(s: State) | Raised(why: Failure, s: State)

  function Why(r: Outcome): Option<Failure> {
    match r
    case Done(_) => None
    case Raised(why, _) => Some(why)
  }

  /** A usable untyped: laid out soundly, and holding nothing fungible if it is device memory. */
  predicate Ready(t: Tagged) {
    t.ut.Laid() && (t.device ==> OnlyPinned(t.ut))
  }

  predicate AllReady(ts: seq<Tagged>) {
    forall i :: 0 <= i < |ts| ==> Ready(ts[i])
  }

  predicate Inv(s: State) {
    ValidQueue(s.q) && AllReady(s.all) && s.c < |s.all|
  }

  // ----- what every step keeps -----

  predicate SameSupply(a: seq<Tagged>, b: seq<Tagged>) {
    && |a| == |b|
    && forall i :: 0 <= i < |a| ==> SameUntyped(a[i].ut, b[i].ut) && a[i].device == b[i].device
  }

  /** How often an object is a child of one of the untypeds. */
  function HeldAll(ts: seq<Tagged>, o: Object): nat {
    if ts == [] then 0 else Held(ts[0].ut, o) + HeldAll(ts[1..], o)
  }

  function Ledger(s: State, o: Object): nat {
    Waiting(s.q, o) + HeldAll(s.all, o)
  }

  /** A step is sound when it keeps the invariant, the supply, and every object's ledger. */
  ghost predicate Sound(s: State, s': State) {
    Inv(s') && SameSupply(s.all, s'.all) && forall o {:trigger Ledger(s', o)} :: Ledger(s', o) == Ledger(s, o)
  }

  lemma {:induction false} NothingHeld(ts: seq<Tagged>, o: Object)
    requires forall i :: 0 <= i < |ts| ==> ts[i].ut.Fresh()
    ensures HeldAll(ts, o) == 0
  {
    if ts != [] { NothingHeld(ts[1..], o); }
  }

  lemma {:induction false} HeldAllConcat(a: seq<Tagged>, b: seq<Tagged>, o: Object)
    ensures HeldAll(a + b, o) == HeldAll(a, o) + HeldAll(b, o)
  {
    if a == [] {
      assert a + b == b;
    } else {
      HeldAllConcat(a[1..], b, o);
      assert (a + b)[1..] == a[1..] + b;
    }
  }

  lemma {:induction false} HeldAllUpdate(ts: seq<Tagged>, c: nat, t: Tagged, o: Object)
    requires c < |ts|
    ensures HeldAll(ts[c := t], o) == HeldAll(ts, o) - Held(ts[c].ut, o) + Held(t.ut, o)
  {
    HeldAllConcat(ts[..c], ts[c..], o);
    HeldAllConcat(ts[..c], [t] + ts[c + 1..], o);
    assert ts == ts[..c] + ts[c..] && ts[c := t] == ts[..c] + ([t] + ts[c + 1..]);
    assert ([t] + ts[c + 1..])[1..] == ts[c..][1..];
  }

  function Replaced(s: State, q: Queue, u: Ut): State
    requires s.c < |s.all|
  {
    s.(q := q, all := s.all[s.c := s.Cur().(ut := u)])
  }

  /** Replacing the queue and the current untyped is sound when the two balance. */
  lemma {:induction false} ReplaceCur(s: State, q: Queue, u: Ut)
    requires Inv(s) && ValidQueue(q) && Ready(s.Cur().(ut := u)) && SameUntyped(s.Cur().ut, u)
    requires forall o :: Waiting(q, o) + Held(u, o) == Waiting(s.q, o) + Held(s.Cur().ut, o)
    ensures Sound(s, Replaced(s, q, u))
  {
    forall o ensures Ledger(Replaced(s, q, u), o) == Ledger(s, o) {
      HeldAllUpdate(s.all, s.c, s.Cur().(ut := u), o);
    }
  }

  lemma {:induction false} SoundTransitive(a: State, b: State, c: State)
    requires Sound(a, b) && Sound(b, c)
    ensures Sound(a, c)
  {
  }

  // ----- the steps -----

  function NextUt(s: State): State
    requires !s.Last()
  {
    s.(c := s.c + 1)
  }

  function UseCur(s: State, bytes: nat): (s': State)
    requires Inv(s) && bytes <= s.Cur().ut.Remaining()
    ensures Inv(s') && s'.c == s.c && |s'.all| == |s.all| && s'.q.unfun == s.q.unfun
    ensures s'.Rest() == s.Rest()
    ensures SameUntyped(s.Cur().ut, s'.Cur().ut) && s'.Cur().ut.watermark == s.Cur().ut.watermark + bytes
  {
    UseFrame(s.q, s.Cur().ut, bytes, s.Cur().device);
    var r := UseUntyped(s.q, s.Cur().ut, bytes, s.Cur().device);
    Replaced(s, r.q, r.u)
  }

  lemma {:induction false} UseCurSound(s: State, bytes: nat)
    requires Inv(s) && bytes <= s.Cur().ut.Remaining()
    ensures Sound(s, UseCur(s, bytes))
  {
    var u, d := s.Cur().ut, s.Cur().device;
    var r := UseUntyped(s.q, u, bytes, d);
    UseFrame(s.q, u, bytes, d);
    forall o ensures Waiting(r.q, o) + Held(r.u, o) == Waiting(s.q, o) + Held(u, o) {
      UseLedger(s.q, u, bytes, d, o);
    }
    ReplaceCur(s, r.q, r.u);
  }

  /** The pinned object at the head of the queue fits the current untyped at its own address. */
  predicate FitsHere(s: State)
    requires Inv(s) && s.q.unfun != []
  {
    var o := s.q.unfun[0];
    o.paddr.value >= s.Cur().ut.WatermarkPaddr() && o.paddr.value + Pow2(o.sizeBits) <= s.Cur().ut.End()
  }

  function PlacePinned(s: State): State
    requires Inv(s) && s.q.unfun != []
  {
    Replaced(s, s.q.(unfun := s.q.unfun[1..]), s.Cur().ut.Add(Allocated(s.q.unfun[0])))
  }

  lemma {:induction false} PlaceLedger(q: Queue, u: Ut, x: Object)
    requires q.unfun != []
    ensures Waiting(q.(unfun := q.unfun[1..]), x) + Held(u.Add(Allocated(q.unfun[0])), x) == Waiting(q, x) + Held(u, x)
  {
    assert q.unfun == [q.unfun[0]] + q.unfun[1..];
  }

  lemma {:induction false} PlacePinnedSound(s: State)
    requires Inv(s) && s.q.unfun != []
    requires var o := s.q.unfun[0];
             && o.paddr.value == s.Cur().ut.WatermarkPaddr() && Aligned(o.paddr.value, o.sizeBits)
             && o.paddr.value + Pow2(o.sizeBits) <= s.Cur().ut.End()
    ensures Sound(s, PlacePinned(s))
  {
    var o, u := s.q.unfun[0], s.Cur().ut;
    var q', u' := s.q.(unfun := s.q.unfun[1..]), u.Add(Allocated(o));
    AddKeepsLaid(u, Allocated(o));
    forall x ensures Waiting(q', x) + Held(u', x) == Waiting(s.q, x) + Held(u, x) {
      PlaceLedger(s.q, u, x);
    }
    assert Ready(s.Cur().(ut := u')) by {
      assert OnlyPinned(u) ==> OnlyPinned(u');
    }
    ReplaceCur(s, q', u');
  }

  /** Fill up to the address of the pinned object and place it, if it is aligned. */
  function Reach(s: State): (r: Outcome)
    requires Inv(s) && s.q.unfun != [] && FitsHere(s)
    ensures Inv(r.s)
  {
    var o := s.q.unfun[0];
    var s1 := UseCur(s, o.paddr.value - s.Cur().ut.WatermarkPaddr());
    if !Aligned(o.paddr.value, o.sizeBits) then Raised(Misaligned(o), s1)
    else
      PlacePinnedSound(s1);
      Done(PlacePinned(s1))
  }

  /** The body of the pinned loop once the current untyped has room. */
  function PinnedBody(s: State): (r: Outcome)
    requires Inv(s) && s.q.unfun != []
    ensures Inv(r.s)
  {
    var o := s.q.unfun[0];
    if o.paddr.value < s.Cur().ut.WatermarkPaddr() then Raised(NoUntypedFor(o), s)
    else if FitsHere(s) then Reach(s)
    else if s.q.fun != map[] then Done(UseCur(s, s.Cur().ut.Remaining()))
    else if s.Last() then Raised(OutOfUntyped, s)
    else Done(NextUt(s))
  }

  /** One iteration of the pinned loop. */
  function PinnedStep(s: State): (r: Outcome)
    requires Inv(s) && s.q.unfun != []
    ensures Inv(r.s)
  {
    if s.Cur().ut.Remaining() > 0 then PinnedBody(s)
    else if s.Last() then Raised(OutOfUntyped, s)
    else PinnedBody(NextUt(s))
  }

  lemma {:induction false} ReachSound(s: State)
    requires Inv(s) && s.q.unfun != [] && FitsHere(s)
    ensures Sound(s, Reach(s).s)
  {
    var o := s.q.unfun[0];
    var s1 := AfterUse(s, o, o.paddr.value - s.Cur().ut.WatermarkPaddr());
    if Aligned(o.paddr.value, o.sizeBits) {
      PlaceNext(s, s1, o);
      ReachPlaced(s, s1, o);
    } else {
      ReachStopped(s, s1, o);
    }
  }

  lemma {:induction false} ReachPlaced(s: State, s1: State, o: Object)
    requires Inv(s) && s.q.unfun != [] && FitsHere(s) && o == s.q.unfun[0] && Aligned(o.paddr.value, o.sizeBits)
    requires s1 == UseCur(s, o.paddr.value - s.Cur().ut.WatermarkPaddr())
    ensures s1.q.unfun != [] && Reach(s).s == PlacePinned(s1)
  {
  }

  lemma {:induction false} ReachStopped(s: State, s1: State, o: Object)
    requires Inv(s) && s.q.unfun != [] && FitsHere(s) && o == s.q.unfun[0] && !Aligned(o.paddr.value, o.sizeBits)
    requires s1 == UseCur(s, o.paddr.value - s.Cur().ut.WatermarkPaddr())
    ensures Reach(s).s == s1
  {
  }

  lemma {:induction false} AfterUse(s: State, o: Object, gap: nat) returns (s1: State)
    requires Inv(s) && s.q.unfun != [] && o == s.q.unfun[0] && FitsHere(s)
    requires gap == o.paddr.value - s.Cur().ut.WatermarkPaddr()
    ensures s1 == UseCur(s, gap) && Inv(s1) && Sound(s, s1)
    ensures s1.q.unfun != [] && s1.q.unfun[0] == o
    ensures s1.Cur().ut.WatermarkPaddr() == o.paddr.value && s1.Cur().ut.End() == s.Cur().ut.End()
  {
    UseCurSound(s, gap);
    s1 := UseCur(s, gap);
  }

  lemma {:induction false} PlaceNext(s: State, s1: State, o: Object)
    requires Inv(s) && Inv(s1) && Sound(s, s1) && s1.q.unfun != [] && o == s1.q.unfun[0]
    requires o.paddr.value == s1.Cur().ut.WatermarkPaddr() && Aligned(o.paddr.value, o.sizeBits)
    requires o.paddr.value + Pow2(o.sizeBits) <= s1.Cur().ut.End()
    ensures Sound(s, PlacePinned(s1))
  {
    PlacePinnedSound(s1);
    SoundTransitive(s, s1, PlacePinned(s1));
  }

  lemma {:induction false} PinnedBodySound(s: State)
    requires Inv(s) && s.q.unfun != []
    ensures Sound(s, PinnedBody(s).s)
  {
    if s.q.unfun[0].paddr.value < s.Cur().ut.WatermarkPaddr() {
    } else if FitsHere(s) {
      ReachSound(s);
    } else if s.q.fun != map[] {
      UseCurSound(s, s.Cur().ut.Remaining());
    }
  }

  lemma {:induction false} PinnedStepSound(s: State)
    requires Inv(s) && s.q.unfun != []
    ensures Sound(s, PinnedStep(s).s)
  {
    if s.Cur().ut.Remaining() > 0 {
      PinnedBodySound(s);
    } else if !s.Last() {
      PinnedBodySound(NextUt(s));
      SoundTransitive(s, NextUt(s), PinnedBody(NextUt(s)).s);
    }
  }

  /** Untypeds left, pinned objects left, bytes left in the current untyped. */
  lemma {:induction false} PinnedStepProgress(s: State)
    requires Inv(s) && s.q.unfun != [] && PinnedStep(s).Done?
    ensures var s' := PinnedStep(s).s;
            && |s'.all| == |s.all|
            && (|| s'.c > s.c
                || (s'.c == s.c && |s'.q.unfun| < |s.q.unfun|)
                || (s'.c == s.c && s'.q.unfun == s.q.unfun && 0 <= s'.Cur().ut.Remaining() < s.Cur().ut.Remaining()))
  {
  }

  function PinnedPhase(s: State): (r: Outcome)
    requires Inv(s)
    ensures Inv(r.s)
    ensures r.Done? ==> r.s.q.unfun == []
    decreases |s.all| - s.c, |s.q.unfun|, s.Cur().ut.Remaining()
  {
    if s.q.unfun == [] then Done(s)
    else
      match PinnedStep(s)
      case Raised(why, s') => Raised(why, s')
      case Done(s') =>
        PinnedStepProgress(s);
        PinnedPhase(s')
  }

  lemma {:induction false} PinnedPhaseSound(s: State)
    requires Inv(s)
    ensures Sound(s, PinnedPhase(s).s)
    decreases |s.all| - s.c, |s.q.unfun|, s.Cur().ut.Remaining()
  {
    if s.q.unfun != [] {
      PinnedStepSound(s);
      if PinnedStep(s).Done? {
        var s' := PinnedStep(s).s;
        PinnedStepProgress(s);
        PinnedPhaseSound(s');
        SoundTransitive(s, s', PinnedPhase(s').s);
      }
    }
  }

  /** Use up the current untyped unless it is device memory. */
  function TopUp(s: State): (s': State)
    requires Inv(s)
    ensures Inv(s') && s'.c == s.c && s'.Rest() == s.Rest() && s'.q.unfun == s.q.unfun
  {
    if s.Cur().device then s else UseCur(s, s.Cur().ut.Remaining())
  }

  /** Topping up stays at the same untyped. */
  lemma {:induction false} TopUpInPlace(s: State)
    requires Inv(s)
    ensures Inv(TopUp(s)) && TopUp(s).c == s.c && |TopUp(s).all| == |s.all|
  {
  }

  lemma {:induction false} TopUpSound(s: State)
    requires Inv(s)
    ensures Sound(s, TopUp(s))
  {
    if !s.Cur().device { UseCurSound(s, s.Cur().ut.Remaining()); }
  }

  /** The second loop: place what is left, one untyped after the other. */
  function FungiblePhase(s: State): (r: Outcome)
    requires Inv(s)
    ensures Inv(r.s) && r.s.q.unfun == s.q.unfun
    ensures r.Done? ==> r.s.q.fun == map[]
    decreases |s.all| - s.c
  {
    if s.q.fun == map[] then Done(s)
    else if s.Last() then Raised(OutOfUntyped, s)
    else FungiblePhase(TopUp(NextUt(s)))
  }

  lemma {:induction false} FungibleUnfold(s: State)
    requires Inv(s) && s.q.fun != map[]
    ensures FungiblePhase(s) == if s.Last() then Raised(OutOfUntyped, s) else FungiblePhase(TopUp(NextUt(s)))
  {
  }

  /** The state after one iteration of the second loop, which leads to the same end. */
  lemma {:induction false} FungibleNext(s: State) returns (s': State)
    requires Inv(s) && s.q.fun != map[] && !s.Last()
    ensures s' == TopUp(NextUt(s)) && Inv(s') && s'.c == s.c + 1 && |s'.all| == |s.all|
    ensures FungiblePhase(s') == FungiblePhase(s)
  {
    s' := TopUp(NextUt(s));
    FungibleUnfold(s);
    TopUpInPlace(NextUt(s));
  }

  lemma {:induction false} FungiblePhaseSound(s: State)
    requires Inv(s)
    ensures Sound(s, FungiblePhase(s).s)
    decreases |s.all| - s.c
  {
    if s.q.fun != map[] && !s.Last() {
      TopUpSound(NextUt(s));
      var s' := TopUp(NextUt(s));
      FungiblePhaseSound(s');
      SoundTransitive(s, NextUt(s), s');
      SoundTransitive(s, s', FungiblePhase(s').s);
    }
  }

  /** Both phases, from a queue and at least one untyped. */
  function Run(s: State): (r: Outcome)
    requires Inv(s)
    ensures Inv(r.s)
    ensures r.Done? ==> r.s.q == EMPTY_QUEUE
  {
    match PinnedPhase(s)
    case Raised(why, s') => Raised(why, s')
    case Done(s') => FungiblePhase(TopUp(s'))
  }

  lemma {:induction false} RunUnfold(s: State)
    requires Inv(s)
    ensures Run(s) == if PinnedPhase(s).Done? then FungiblePhase(TopUp(PinnedPhase(s).s)) else PinnedPhase(s)
  {
  }

  lemma {:induction false} RunSound(s: State)
    requires Inv(s)
    ensures Sound(s, Run(s).s)
  {
    PinnedPhaseSound(s);
    if PinnedPhase(s).Done? {
      var s1 := PinnedPhase(s).s;
      TopUpSound(s1);
      FungiblePhaseSound(TopUp(s1));
      SoundTransitive(s, s1, TopUp(s1));
      SoundTransitive(s, TopUp(s1), Run(s).s);
    }
  }

  // ----- whole runs of allocate -----

  /** The result of `allocate`: the untypeds afterwards, and the exception if one was raised. */
  datatype Result = Result(uts: seq<Tagged>, failure: Option<Failure>)

  function Allocate(objs: seq<Object>, supply: seq<Tagged>): (r: Result)
    requires AllReady(supply)
  {
    if objs == [] then Result(supply, None)
    else
      match Build(EMPTY_QUEUE, objs)
      case None => Result(supply, Some(DuplicatePaddr))
      case Some(q) =>
        if supply == [] then Result(supply, Some(OutOfUntyped))
        else
          StartInv(objs, supply);
          match Run(State(q, supply, 0))
          case Done(s) => Result(s.all, None)
          case Raised(why, s) => Result(s.all, Some(why))
  }

  lemma {:induction false} StartInv(objs: seq<Object>, supply: seq<Tagged>)
    requires AllReady(supply) && supply != [] && Build(EMPTY_QUEUE, objs).Some?
    ensures var s := State(Build(EMPTY_QUEUE, objs).value, supply, 0);
            Inv(s)
  {
    BuildCounts(EMPTY_QUEUE, objs, Object("", 0, None));
  }

  /**
   Layout soundness, on success and on failure: every untyped keeps its identity, its children lie
   back to back from its base, aligned and inside it, pinned ones exactly at their own address, and
   no fungible object ever ends up in device memory.
   */
  lemma {:induction false} AllocateLayout(objs: seq<Object>, supply: seq<Tagged>)
    requires AllReady(supply)
    ensures AllReady(Allocate(objs, supply).uts)
    ensures SameSupply(supply, Allocate(objs, supply).uts)
  {
    if objs != [] && supply != [] && Build(EMPTY_QUEUE, objs).Some? {
      StartInv(objs, supply);
      RunSound(State(Build(EMPTY_QUEUE, objs).value, supply, 0));
    }
  }

  /** All children of all untypeds are pairwise disjoint when the untypeds are. */
  lemma {:induction false} AllocateDisjoint(objs: seq<Object>, supply: seq<Tagged>, i: nat, k: nat, j: nat, l: nat)
    requires AllReady(supply)
    requires forall a, b :: 0 <= a < b < |supply| ==> supply[a].ut.End() <= supply[b].ut.paddr
    requires var uts := Allocate(objs, supply).uts;
             && i < |uts| && k < |uts[i].ut.children| && j < |uts| && l < |uts[j].ut.children|
             && (i < j || (i == j && k < l))
    ensures var uts := Allocate(objs, supply).uts;
            uts[i].ut.ChildAddr(k) + ChildSize(uts[i].ut.children[k]) <= uts[j].ut.ChildAddr(l)
  {
    AllocateLayout(objs, supply);
    var uts := Allocate(objs, supply).uts;
    assert Ready(uts[i]) && Ready(uts[j]);
    if i < j {
      LaidApart(uts[i].ut, k, uts[j].ut, l);
    } else {
      LaidDisjoint(uts[i].ut, k, l);
    }
  }

  /** Conservation: on success every sized object of the spec became a child once more, and nothing else did. */
  lemma {:induction false} AllocateConserves(objs: seq<Object>, supply: seq<Tagged>, o: Object)
    requires AllReady(supply) && Allocate(objs, supply).failure.None?
    ensures HeldAll(Allocate(objs, supply).uts, o)
         == HeldAll(supply, o) + if Sized(o) then multiset(objs)[o] else 0
  {
    if objs != [] {
      var q := Build(EMPTY_QUEUE, objs).value;
      StartInv(objs, supply);
      BuildCounts(EMPTY_QUEUE, objs, o);
      var s := State(q, supply, 0);
      RunSound(s);
      assert Ledger(Run(s).s, o) == Ledger(s, o);
    }
  }
}
