/**
 The allocator as the Python code runs it: objects whose fields are updated in place, each method
 proved to compute the corresponding function on values.
 */
module Allocator {
  import opened Wrappers
  import opened Arithmetic
  import opened Untypeds
  import opened BestFit
  import opened Allocation
  import opened UntypedList

  class Untyped {
    const name: string
    const sizeBits: nat
    const paddr: Option<nat>
    var watermark: nat
    var children: seq<Child>

    constructor (name: string, sizeBits: nat, paddr: Option<nat>)
      ensures this.name == name && this.sizeBits == sizeBits && this.paddr == paddr
      ensures watermark == 0 && children == []
    {
      this.name := name;
      this.sizeBits := sizeBits;
      this.paddr := paddr;
      watermark := 0;
      children := [];
    }

    function Value(): Ut
      requires paddr.Some?
      reads this
    {
      Ut(name, sizeBits, paddr.value, watermark, children)
    }

    function Remaining(): int
      reads this
    {
      Pow2(sizeBits) - watermark
    }

    function WatermarkPaddr(): nat
      requires paddr.Some?
      reads this
    {
      watermark + paddr.value
    }

    /** `add_child`; the preconditions are its assertions. */
    method AddChild(child: Child, at: Option<nat>) returns (left: int)
      requires ChildSize(child) <= Remaining()
      requires at.Some? ==> Aligned(at.value, ChildBits(child))
      requires at.Some? && at.value != 0 ==> paddr.Some? && WatermarkPaddr() == at.value
      modifies this
      ensures children == old(children) + [child]
      ensures watermark == old(watermark) + ChildSize(child)
      ensures paddr.Some? ==> Value() == old(Value()).Add(child)
      ensures left == Remaining()
    {
      children := children + [child];
      watermark := watermark + ChildSize(child);
      left := Remaining();
    }
  }

  class AllocQueue {
    var objects: map<nat, seq<Object>>
    var sizes: seq<nat>
    var unfun: seq<Object>

    function Value(): Queue
      reads this
    {
      Queue(objects, unfun)
    }

    /** `sizes` lists the sizes in use, ascending. */
    ghost predicate Valid()
      reads this
    {
      && ValidQueue(Value())
      && (forall i, j :: 0 <= i < j < |sizes| ==> sizes[i] < sizes[j])
      && (forall k :: k in sizes <==> k in objects)
    }

    constructor ()
      ensures Valid() && Value() == EMPTY_QUEUE
    {
      objects := map[];
      sizes := [];
      unfun := [];
    }

    method PushFun(o: Object)
      requires Valid() && Fungible(o)
      modifies this
      ensures Valid() && Value() == BestFit.PushFun(old(Value()), o)
    {
      var k := o.sizeBits;
      PushKeepsValid(Value(), o);
      if k in objects {
        objects := objects[k := objects[k] + [o]];
      } else {
        objects := objects[k := [o]];
        sizes := SortedAdd(sizes, k);
      }
    }

    method PopFun(k: nat) returns (o: Object)
      requires Valid() && k in objects
      modifies this
      ensures old(ValidLevel(k, objects[k]))
      ensures o == NextFun(old(Value()), k)
      ensures Valid() && Value() == BestFit.PopFun(old(Value()), k)
    {
      PopKeepsValid(Value(), k);
      var s := objects[k];
      o := s[|s| - 1];
      objects := objects[k := s[..|s| - 1]];
      if |objects[k]| == 0 {
        sizes := SortedRemove(sizes, k);
        objects := objects - {k};
      }
      assert Value().fun == BestFit.PopFun(old(Value()), k).fun;
    }

    method PushUnfun(o: Object) returns (ok: bool)
      requires Valid() && Pinned(o)
      modifies this
      ensures Valid()
      ensures ok <==> BestFit.PushUnfun(old(Value()), o).Some?
      ensures Value() == if ok then BestFit.PushUnfun(old(Value()), o).value else old(Value())
    {
      PushKeepsValid(Value(), o);
      var i := PinnedIndex(unfun, o.paddr.value);
      if i < |unfun| && unfun[i].paddr == o.paddr {
        return false;
      }
      unfun := unfun[..i] + [o] + unfun[i..];
      ok := true;
    }

    method PopUnfun() returns (o: Object)
      requires Valid() && unfun != []
      modifies this
      ensures Valid() && o == old(unfun)[0]
      ensures Value() == old(Value()).(unfun := old(unfun)[1..])
    {
      o := unfun[0];
      unfun := unfun[1..];
    }

    /** The constructor's loop over the objects of the spec. */
    method Load(objs: seq<Object>) returns (ok: bool)
      requires Valid()
      modifies this
      ensures Valid()
      ensures ok <==> Build(old(Value()), objs).Some?
      ensures ok ==> Value() == Build(old(Value()), objs).value
    {
      ghost var start := Value();
      for i := 0 to |objs|
        invariant Valid()
        invariant Build(start, objs) == Build(Value(), objs[i..])
      {
        var o := objs[i];
        PushKeepsValid(Value(), o);
        assert objs[i..][1..] == objs[i + 1..];
        if Pinned(o) {
          var fresh' := PushUnfun(o);
          if !fresh' {
            return false;
          }
        } else if o.sizeBits > 0 {
          PushFun(o);
        }
      }
      ok := true;
    }

    method MinSize() returns (k: nat)
      requires Valid() && objects != map[]
      ensures k in objects && forall j | j in objects :: k <= j
    {
      var j :| j in objects;
      assert j in sizes;
      k := sizes[0];
    }

    predicate MoreFun()
      reads this
    {
      objects != map[]
    }
  }

  /** `AllocQueue(s)`. */
  method Enqueue(objs: seq<Object>) returns (objects: AllocQueue, ok: bool)
    ensures fresh(objects) && objects.Valid()
    ensures ok <==> Build(EMPTY_QUEUE, objs).Some?
    ensures ok ==> objects.Value() == Build(EMPTY_QUEUE, objs).value
  {
    objects := new AllocQueue();
    ok := objects.Load(objs);
  }

  function SortedAdd(s: seq<nat>, k: nat): (r: seq<nat>)
    requires k !in s && Ascending(s)
    ensures Ascending(r)
    ensures forall x :: x in r <==> x in s || x == k
  {
    if s == [] || k < s[0] then [k] + s
    else
      var t := SortedAdd(s[1..], k);
      assert s == [s[0]] + s[1..];
      assert forall x :: x in s[1..] ==> s[0] < x;
      PrependAscending(s[0], t);
      [s[0]] + t
  }

  function SortedRemove(s: seq<nat>, k: nat): (r: seq<nat>)
    requires Ascending(s)
    ensures Ascending(r)
    ensures forall x :: x in r <==> x in s && x != k
  {
    if s == [] then []
    else
      var t := SortedRemove(s[1..], k);
      assert s == [s[0]] + s[1..];
      assert forall x :: x in s[1..] ==> s[0] < x;
      PrependAscending(s[0], t);
      if s[0] == k then t else [s[0]] + t
  }

  predicate Ascending(s: seq<nat>) {
    forall i, j :: 0 <= i < j < |s| ==> s[i] < s[j]
  }

  lemma {:induction false} PrependAscending(x: nat, t: seq<nat>)
    requires Ascending(t) && forall y :: y in t ==> x < y
    ensures Ascending([x] + t)
  {
    assert forall i :: 0 <= i < |t| ==> t[i] in t;
  }

  /** `_add_placeholder`. */
  method PlacePlaceholder(ut: Untyped, bits: nat)
    requires ut.paddr.Some? && Pow2(bits) <= ut.Value().Remaining() && Aligned(ut.Value().WatermarkPaddr(), bits)
    modifies ut
    ensures ut.Value() == old(ut.Value()).AddPlaceholder(bits)
  {
    var at := ut.WatermarkPaddr();
    var _ := ut.AddChild(Placeholder(at, bits), Some(at));
  }

  /** `_fill_from_objects`. */
  method FillFromObjects(objects: AllocQueue, ut: Untyped, bits: nat) returns (left: nat)
    requires objects.Valid() && ut.paddr.Some? && ut.Value().Laid()
    requires Aligned(ut.Value().WatermarkPaddr(), bits) && Pow2(bits) <= ut.Value().Remaining()
    modifies objects, ut
    ensures objects.Valid()
    ensures Filled(objects.Value(), ut.Value(), left) == Fill(old(objects.Value()), old(ut.Value()), bits)
    decreases bits, 1
  {
    if !objects.MoreFun() {
      return bits;
    }
    var least := objects.MinSize();
    if bits < least {
      return bits;
    }
    if bits in objects.objects {
      var o := objects.PopFun(bits);
      var _ := ut.AddChild(Allocated(o), None);
      return 0;
    }
    left := FillHalves(objects, ut, bits);
  }

  /** No object of the size looked for: try for two of half the size. */
  method FillHalves(objects: AllocQueue, ut: Untyped, bits: nat) returns (left: nat)
    requires objects.Valid() && ut.paddr.Some? && ut.Value().Laid()
    requires Aligned(ut.Value().WatermarkPaddr(), bits) && Pow2(bits) <= ut.Value().Remaining()
    requires !NoneFit(objects.Value(), bits) && bits !in objects.objects
    modifies objects, ut
    ensures objects.Valid()
    ensures Filled(objects.Value(), ut.Value(), left) == Fill(old(objects.Value()), old(ut.Value()), bits)
    decreases bits, 0
  {
    HalvesFit(objects.Value(), ut.Value(), bits);
    var first := FillFromObjects(objects, ut, bits - 1);
    var second := FillFromObjects(objects, ut, bits - 1);
    if first == second {
      left := if first == 0 then 0 else bits;
    } else {
      PlacePlaceholder(ut, bits - 1);
      left := 0;
    }
  }

  /** One round of `_use_untyped`: a block of `2^bits` bytes at the watermark. */
  method UseOneBlock(objects: AllocQueue, ut: Untyped, bits: nat, device: bool)
    requires objects.Valid() && ut.paddr.Some? && ut.Value().Laid()
    requires Aligned(ut.Value().WatermarkPaddr(), bits) && Pow2(bits) <= ut.Value().Remaining()
    modifies objects, ut
    ensures objects.Valid()
    ensures Used(objects.Value(), ut.Value()) == UseBlock(old(objects.Value()), old(ut.Value()), bits, device)
  {
    if device {
      PlacePlaceholder(ut, bits);
    } else {
      ghost var q, u := objects.Value(), ut.Value();
      FillConservesWork(q, u, bits);
      if !NoneFit(q, bits) { PositiveBits(q, bits); }
      var res := FillFromObjects(objects, ut, bits);
      if res == bits {
        PlacePlaceholder(ut, bits);
      }
    }
  }

  /** The alignment common to the bytes to go and the watermark; address 0 is aligned to everything. */
  method ChooseBits(ut: Untyped, bytes: nat) returns (bits: nat)
    requires ut.paddr.Some? && bytes > 0
    ensures bits == BlockBits(ut.Value(), bytes)
  {
    bits := CountTrailingZeros(bytes);
    if ut.WatermarkPaddr() != 0 {
      var w := CountTrailingZeros(ut.WatermarkPaddr());
      bits := Min(bits, w);
    }
  }

  /** The body of the `_use_untyped` loop: choose the block size, use one block, count it off. */
  method UseNextBlock(objects: AllocQueue, ut: Untyped, bytes: nat, device: bool) returns (left: nat)
    requires objects.Valid() && ut.paddr.Some? && ut.Value().Laid() && 0 < bytes <= ut.Value().Remaining()
    modifies objects, ut
    ensures objects.Valid() && ut.Value().Laid() && left < bytes && left <= ut.Value().Remaining()
    ensures UseUntyped(objects.Value(), ut.Value(), left, device)
         == UseUntyped(old(objects.Value()), old(ut.Value()), bytes, device)
  {
    ghost var q, u := objects.Value(), ut.Value();
    var bits := ChooseBits(ut, bytes);
    UseStep(q, u, bytes, device);
    ghost var r := UseBlock(q, u, bits, device);
    UseOneBlock(objects, ut, bits, device);
    assert objects.Value() == r.q && ut.Value() == r.u;
    left := bytes - Pow2(bits);
  }

  /** `_use_untyped`. */
  method UseUntypedBytes(objects: AllocQueue, ut: Untyped, bytes: nat, device: bool)
    requires objects.Valid() && ut.paddr.Some? && ut.Value().Laid() && bytes <= ut.Value().Remaining()
    modifies objects, ut
    ensures objects.Valid()
    ensures Used(objects.Value(), ut.Value()) == UseUntyped(old(objects.Value()), old(ut.Value()), bytes, device)
  {
    ghost var goal := UseUntyped(objects.Value(), ut.Value(), bytes, device);
    var left: nat := bytes;
    while left != 0
      invariant objects.Valid() && ut.Value().Laid() && left <= ut.Value().Remaining()
      invariant UseUntyped(objects.Value(), ut.Value(), left, device) == goal
    {
      left := UseNextBlock(objects, ut, left, device);
    }
  }

  // ----- the allocator object -----

  type Entry = (Untyped, bool)

  predicate Addressed(es: seq<Entry>) {
    forall i :: 0 <= i < |es| ==> es[i].0.paddr.Some?
  }

  /** The fixed part of an entry, which is all that ordering and overlap look at. */
  function Key(e: Entry): Tagged
    requires e.0.paddr.Some?
  {
    Tagged(Ut(e.0.name, e.0.sizeBits, e.0.paddr.value, 0, []), e.1)
  }

  function Keys(es: seq<Entry>): seq<Tagged>
    requires Addressed(es)
  {
    seq(|es|, i requires 0 <= i < |es| => Key(es[i]))
  }

  lemma {:induction false} KeysInsert(es: seq<Entry>, e: Entry, i: nat)
    requires Addressed(es) && e.0.paddr.Some? && i <= |es|
    ensures Addressed(es[..i] + [e] + es[i..])
    ensures Keys(es[..i] + [e] + es[i..]) == Keys(es)[..i] + [Key(e)] + Keys(es)[i..]
  {
  }

  ghost function Objects(es: seq<Entry>): set<Untyped> {
    set i | 0 <= i < |es| :: es[i].0
  }

  /** `ts` is the current state of the untypeds in a list. */
  ghost predicate Shows(es: seq<Entry>, ts: seq<Tagged>)
    reads Objects(es)
  {
    && Addressed(es) && |ts| == |es|
    && forall i :: 0 <= i < |es| ==> ts[i] == Tagged(es[i].0.Value(), es[i].1)
  }

  predicate Distinct(es: seq<Entry>) {
    forall i, j :: 0 <= i < j < |es| ==> es[i].0 != es[j].0
  }

  lemma {:induction false} SortedApartDistinct(es: seq<Entry>)
    requires Addressed(es) && SortedApart(Keys(es))
    ensures Distinct(es)
  {
    var ks := Keys(es);
    forall i, j | 0 <= i < j < |es| ensures es[i].0 != es[j].0 {
      assert ks[i].ut.End() <= ks[j].ut.paddr;
    }
  }

  /** The objects in memory are in state `s`. */
  ghost predicate Models(objects: AllocQueue, supply: seq<Entry>, s: State)
    reads objects, Objects(supply)
  {
    && Distinct(supply) && Shows(supply, s.all)
    && objects.Valid() && s.q == objects.Value()
  }

  /** Use bytes of the untyped at hand. */
  method UseHere(objects: AllocQueue, ut: Untyped, device: bool, bytes: nat, ghost supply: seq<Entry>, ghost s: State)
    requires Models(objects, supply, s) && Inv(s)
    requires supply[s.c] == (ut, device) && bytes <= s.Cur().ut.Remaining()
    modifies objects, ut
    ensures Models(objects, supply, UseCur(s, bytes))
  {
    UseUntypedBytes(objects, ut, bytes, device);
  }

  /** Place the first pinned object at its own address, which the watermark has reached. */
  method PlacePinnedHere(objects: AllocQueue, ut: Untyped, device: bool, ghost supply: seq<Entry>, ghost s: State)
    requires Models(objects, supply, s) && Inv(s) && s.q.unfun != []
    requires supply[s.c] == (ut, device)
    requires s.q.unfun[0].paddr.value == s.Cur().ut.WatermarkPaddr()
    requires Aligned(s.q.unfun[0].paddr.value, s.q.unfun[0].sizeBits)
    requires s.q.unfun[0].paddr.value + Pow2(s.q.unfun[0].sizeBits) <= s.Cur().ut.End()
    modifies objects, ut
    ensures Models(objects, supply, PlacePinned(s))
  {
    var _ := ut.AddChild(Allocated(objects.unfun[0]), objects.unfun[0].paddr);
    var _ := objects.PopUnfun();
  }

  /** Use up the untyped at hand unless it is device memory. */
  method TopUpHere(objects: AllocQueue, ut: Untyped, device: bool, ghost supply: seq<Entry>, ghost s: State)
    requires Models(objects, supply, s) && Inv(s)
    requires supply[s.c] == (ut, device)
    modifies objects, ut
    ensures Models(objects, supply, TopUp(s))
  {
    if !device {
      UseHere(objects, ut, device, ut.Remaining(), supply, s);
    }
  }

  /** The first pinned object belongs in the untyped at hand: fill up to its address and place it. */
  method ReachAndPlace(objects: AllocQueue, ut: Untyped, device: bool, ghost supply: seq<Entry>, ghost s: State)
    returns (failure: Option<Failure>)
    requires Models(objects, supply, s) && Inv(s) && s.q.unfun != []
    requires supply[s.c] == (ut, device) && FitsHere(s)
    modifies objects, ut
    ensures failure == Why(PinnedBody(s)) && PinnedBody(s).s.c == s.c
    ensures Models(objects, supply, PinnedBody(s).s)
  {
    var o := objects.unfun[0];
    var gap := o.paddr.value - ut.WatermarkPaddr();
    UseHere(objects, ut, device, gap, supply, s);
    if !Aligned(o.paddr.value, o.sizeBits) {
      return Some(Misaligned(o));
    }
    PlacePinnedHere(objects, ut, device, supply, UseCur(s, gap));
    failure := None;
  }

  /** The first pinned object lies beyond the untyped at hand: fill it up. */
  method FillUp(objects: AllocQueue, ut: Untyped, device: bool, ghost supply: seq<Entry>, ghost s: State)
    requires Models(objects, supply, s) && Inv(s) && s.q.unfun != [] && s.q.fun != map[]
    requires supply[s.c] == (ut, device)
    requires s.q.unfun[0].paddr.value >= s.Cur().ut.WatermarkPaddr() && !FitsHere(s)
    modifies objects, ut
    ensures PinnedBody(s).Done? && Models(objects, supply, PinnedBody(s).s) && PinnedBody(s).s.c == s.c
  {
    UseHere(objects, ut, device, ut.Remaining(), supply, s);
  }

  class BestFitAllocator {
    var untyped: seq<Entry>
    var utIter: Option<nat>

    ghost predicate Valid()
      reads this
    {
      && Addressed(untyped) && SortedApart(Keys(untyped))
      && (utIter.Some? ==> utIter.value <= |untyped|)
    }

    constructor ()
      ensures Valid() && untyped == [] && utIter == None
    {
      untyped := [];
      utIter := None;
    }

    /** The untypeds the iterator has not handed out yet. */
    function Supply(): seq<Entry>
      requires utIter.Some? ==> utIter.value <= |untyped|
      reads this
    {
      untyped[if utIter.Some? then utIter.value else 0..]
    }

    /** `add_untyped`: accepted exactly when aligned and disjoint from everything accepted before. */
    method AddUntyped(u: Untyped, device: bool) returns (verdict: Verdict)
      requires Valid()
      modifies this`untyped
      ensures Valid()
      ensures verdict == if u.paddr.None? then NoPaddr else Judge(Keys(old(untyped)), Key((u, device)))
      ensures verdict == Accepted ==> Keys(untyped) == Insert(Keys(old(untyped)), Key((u, device)))
      ensures verdict != Accepted ==> untyped == old(untyped)
    {
      if u.paddr.None? {
        return NoPaddr;
      }
      if !Aligned(u.paddr.value, u.sizeBits) {
        return NotAligned;
      }
      var key := Key((u, device));
      NeighboursSuffice(Keys(untyped), key);
      var index := BisectRight(Keys(untyped), key);
      if index > 0 && Overlap(Key(untyped[index - 1]).ut, key.ut) {
        return Overlapping;
      }
      if index < |untyped| && Overlap(key.ut, Key(untyped[index]).ut) {
        return Overlapping;
      }
      KeysInsert(untyped, (u, device), index);
      untyped := untyped[..index] + [(u, device)] + untyped[index..];
      verdict := Accepted;
    }

    /** `_next_ut`. */
    method NextUt() returns (next: Option<Entry>)
      requires utIter.Some? ==> utIter.value <= |untyped|
      modifies this`utIter
      ensures next.None? <==> old(Supply()) == []
      ensures next.Some? ==> next.value == old(Supply())[0]
      ensures var i := if old(utIter).Some? then old(utIter).value else 0;
              utIter == Some(if next.Some? then i + 1 else i)
    {
      if utIter.None? {
        utIter := Some(0);
      }
      var i := utIter.value;
      if i == |untyped| {
        return None;
      }
      utIter := Some(i + 1);
      next := Some(untyped[i]);
    }

    /** Entry `c` of the supply is at hand, and the iterator has what follows it still to offer. */
    ghost predicate OnTrack(supply: seq<Entry>, c: nat, ut: Untyped, device: bool)
      reads this
    {
      && c < |supply| <= |untyped| && supply == untyped[|untyped| - |supply|..]
      && utIter == Some(|untyped| - |supply| + c + 1)
      && supply[c] == (ut, device)
    }

    /** Move on to the next untyped; fails when the supply is exhausted. */
    method Advance(ut: Untyped, device: bool, ghost supply: seq<Entry>, ghost c: nat)
      returns (ok: bool, ut': Untyped, device': bool)
      requires OnTrack(supply, c, ut, device)
      modifies this`utIter
      ensures ok <==> c + 1 < |supply|
      ensures OnTrack(supply, if ok then c + 1 else c, ut', device')
    {
      var next := NextUt();
      if next.None? {
        return false, ut, device;
      }
      ok, ut', device' := true, next.value.0, next.value.1;
    }

    /** The body of the pinned loop once the untyped at hand has room. */
    method PinnedBodyHere(objects: AllocQueue, ut: Untyped, device: bool, ghost supply: seq<Entry>, ghost s: State)
      returns (failure: Option<Failure>, ut': Untyped, device': bool)
      requires Models(objects, supply, s) && Inv(s) && s.q.unfun != []
      requires OnTrack(supply, s.c, ut, device)
      modifies this`utIter, objects, ut
      ensures failure == Why(PinnedBody(s))
      ensures Models(objects, supply, PinnedBody(s).s)
      ensures OnTrack(supply, PinnedBody(s).s.c, ut', device')
    {
      failure, ut', device' := None, ut, device;
      var o := objects.unfun[0];
      if o.paddr.value < ut.WatermarkPaddr() {
        failure := Some(NoUntypedFor(o));
      } else if o.paddr.value + Pow2(o.sizeBits) <= ut.paddr.value + Pow2(ut.sizeBits) {
        failure := ReachAndPlace(objects, ut, device, supply, s);
      } else if objects.MoreFun() {
        FillUp(objects, ut, device, supply, s);
      } else {
        failure, ut', device' := SkipUntyped(objects, ut, device, supply, s);
      }
    }

    /** Nothing left to fill the untyped at hand with: leave it for the next one. */
    method SkipUntyped(objects: AllocQueue, ut: Untyped, device: bool, ghost supply: seq<Entry>, ghost s: State)
      returns (failure: Option<Failure>, ut': Untyped, device': bool)
      requires Models(objects, supply, s) && s.c < |s.all|
      requires OnTrack(supply, s.c, ut, device)
      modifies this`utIter
      ensures failure == if s.Last() then Some(OutOfUntyped) else None
      ensures var s' := if s.Last() then s else Allocation.NextUt(s);
              Models(objects, supply, s') && OnTrack(supply, s'.c, ut', device')
    {
      var ok;
      ok, ut', device' := Advance(ut, device, supply, s.c);
      failure := if ok then None else Some(OutOfUntyped);
    }

    /** One iteration of the pinned loop. */
    method PinnedIteration(objects: AllocQueue, ut: Untyped, device: bool, ghost supply: seq<Entry>, ghost s: State)
      returns (failure: Option<Failure>, ut': Untyped, device': bool)
      requires Models(objects, supply, s) && Inv(s) && s.q.unfun != []
      requires OnTrack(supply, s.c, ut, device)
      modifies this`utIter, objects, Objects(supply)
      ensures failure == Why(PinnedStep(s))
      ensures Models(objects, supply, PinnedStep(s).s)
      ensures OnTrack(supply, PinnedStep(s).s.c, ut', device')
    {
      if ut.Remaining() == 0 {
        failure, ut', device' := SkipUntyped(objects, ut, device, supply, s);
        if failure.Some? {
          return;
        }
        failure, ut', device' := PinnedBodyHere(objects, ut', device', supply, Allocation.NextUt(s));
      } else {
        failure, ut', device' := PinnedBodyHere(objects, ut, device, supply, s);
      }
    }

    /** The first loop of `allocate`. */
    method PinnedLoop(objects: AllocQueue, ut: Untyped, device: bool, ghost supply: seq<Entry>, ghost s: State)
      returns (failure: Option<Failure>, ut': Untyped, device': bool)
      requires Models(objects, supply, s) && Inv(s)
      requires OnTrack(supply, s.c, ut, device)
      modifies this`utIter, objects, Objects(supply)
      ensures failure == Why(PinnedPhase(s))
      ensures Models(objects, supply, PinnedPhase(s).s)
      ensures OnTrack(supply, PinnedPhase(s).s.c, ut', device')
    {
      failure, ut', device' := None, ut, device;
      ghost var now := s;
      while objects.unfun != []
        invariant Models(objects, supply, now) && Inv(now)
        invariant OnTrack(supply, now.c, ut', device')
        invariant failure.None? && PinnedPhase(now) == PinnedPhase(s)
        decreases |now.all| - now.c, |now.q.unfun|, now.Cur().ut.Remaining()
      {
        if PinnedStep(now).Done? { PinnedStepProgress(now); }
        failure, ut', device' := PinnedIteration(objects, ut', device', supply, now);
        if failure.Some? {
          return;
        }
        now := PinnedStep(now).s;
      }
    }

    /** One iteration of the second loop; `s'` is the state it leads to. */
    method FungibleIteration(objects: AllocQueue, ut: Untyped, device: bool, ghost supply: seq<Entry>, ghost s: State)
      returns (ok: bool, ut': Untyped, device': bool, ghost s': State)
      requires Models(objects, supply, s) && Inv(s) && s.q.fun != map[]
      requires OnTrack(supply, s.c, ut, device)
      modifies this`utIter, objects, Objects(supply)
      ensures Inv(s') && Models(objects, supply, s') && OnTrack(supply, s'.c, ut', device')
      ensures ok ==> |s'.all| - s'.c < |s.all| - s.c && FungiblePhase(s') == FungiblePhase(s)
      ensures !ok ==> FungiblePhase(s) == Raised(OutOfUntyped, s')
    {
      ok, ut', device' := Advance(ut, device, supply, s.c);
      if ok {
        assert ut' in Objects(supply);
        TopUpHere(objects, ut', device', supply, Allocation.NextUt(s));
        s' := FungibleNext(s);
      } else {
        s' := s;
        FungibleUnfold(s);
      }
    }

    /** The second loop of `allocate`. */
    method FungibleLoop(objects: AllocQueue, ut: Untyped, device: bool, ghost supply: seq<Entry>, ghost s: State)
      returns (failure: Option<Failure>)
      requires Models(objects, supply, s) && Inv(s)
      requires OnTrack(supply, s.c, ut, device)
      modifies this`utIter, objects, Objects(supply)
      ensures utIter.Some? ==> utIter.value <= |untyped|
      ensures failure == Why(FungiblePhase(s))
      ensures Models(objects, supply, FungiblePhase(s).s)
    {
      var ut', device' := ut, device;
      ghost var now := s;
      while objects.MoreFun()
        invariant Models(objects, supply, now) && Inv(now)
        invariant OnTrack(supply, now.c, ut', device')
        invariant FungiblePhase(now) == FungiblePhase(s)
        decreases |now.all| - now.c
      {
        var ok;
        ok, ut', device', now := FungibleIteration(objects, ut', device', supply, now);
        if !ok {
          return Some(OutOfUntyped);
        }
      }
      failure := None;
    }

    /** Both loops, and topping up the untyped that the first one ends with. */
    method AllocateFrom(objects: AllocQueue, first: Untyped, firstDevice: bool, ghost supply: seq<Entry>,
                        ghost s: State)
      returns (failure: Option<Failure>)
      requires Models(objects, supply, s) && Inv(s)
      requires OnTrack(supply, s.c, first, firstDevice)
      modifies this`utIter, objects, Objects(supply)
      ensures utIter.Some? ==> utIter.value <= |untyped|
      ensures failure == Why(Run(s))
      ensures Shows(supply, Run(s).s.all)
    {
      var ut, device;
      failure, ut, device := PinnedLoop(objects, first, firstDevice, supply, s);
      RunUnfold(s);
      if failure.None? {
        failure := AllocateRest(objects, ut, device, supply, PinnedPhase(s).s);
      }
    }

    /** What follows the first loop. */
    method AllocateRest(objects: AllocQueue, ut: Untyped, device: bool, ghost supply: seq<Entry>, ghost s: State)
      returns (failure: Option<Failure>)
      requires Models(objects, supply, s) && Inv(s)
      requires OnTrack(supply, s.c, ut, device)
      modifies this`utIter, objects, Objects(supply)
      ensures utIter.Some? ==> utIter.value <= |untyped|
      ensures failure == Why(FungiblePhase(TopUp(s)))
      ensures Shows(supply, FungiblePhase(TopUp(s)).s.all)
    {
      assert ut in Objects(supply);
      TopUpHere(objects, ut, device, supply, s);
      failure := FungibleLoop(objects, ut, device, supply, TopUp(s));
    }

    /** From the first untyped on, if there is one. */
    method AllocateQueued(objects: AllocQueue, ghost supply: seq<Entry>, ghost s: State)
      returns (failure: Option<Failure>)
      requires utIter.Some? ==> utIter.value <= |untyped|
      requires supply == Supply() && Models(objects, supply, s) && s.c == 0 && (supply != [] ==> Inv(s))
      modifies this`utIter, objects, Objects(supply)
      ensures utIter.Some? ==> utIter.value <= |untyped|
      ensures supply == [] ==> failure == Some(OutOfUntyped) && Shows(supply, s.all)
      ensures supply != [] ==> Inv(s) && failure == Why(Run(s)) && Shows(supply, Run(s).s.all)
    {
      var next := NextUt();
      if next.None? {
        return Some(OutOfUntyped);
      }
      failure := AllocateFrom(objects, next.value.0, next.value.1, supply, s);
    }

    /**
     `allocate`, for untypeds that are laid out soundly (fresh ones are): from a supply in state `all`
     the untypeds end up in exactly the state that the algorithm on values computes, with the same
     exception if any.
     */
    method Allocate(objs: seq<Object>, ghost all: seq<Tagged>) returns (failure: Option<Failure>)
      requires Valid() && Shows(Supply(), all) && AllReady(all)
      modifies this`utIter, Objects(Supply())
      ensures Valid()
      ensures Shows(old(Supply()), Allocation.Allocate(objs, all).uts)
      ensures failure == Allocation.Allocate(objs, all).failure
    {
      ghost var supply := Supply();
      SortedApartDistinct(untyped);
      if objs == [] {
        return None;
      }
      var objects, loaded := Enqueue(objs);
      if !loaded {
        return Some(DuplicatePaddr);
      }
      if all != [] { StartInv(objs, all); }
      failure := AllocateQueued(objects, supply, State(objects.Value(), all, 0));
    }
  }
}
