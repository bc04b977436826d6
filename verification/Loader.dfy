/**
 The dynamic loader: the order `sortObjects` puts objects in, and `create_objects`, which retypes them
 from the sorted untypeds and hands out capability slots.
 */
module Loader {
  import opened Wrappers
  import opened Arithmetic
  import opened Physical
  import opened LoaderSort
  import opened Greedy
  import opened Optimality

  // ----- sortObjects -----

  datatype Kind = Plain | NoCreation | Issued

  /** An object of the spec; `id` is the rank of its name in the order of names. */
  datatype SpecObject = SpecObject(id: nat, kind: Kind, paddr: Option<nat>, bits: nat)

  /** The order of `sortObjects`: by address, those without one last; then by size, largest first; then by name. */
  predicate Le(a: SpecObject, b: SpecObject) {
    if a.paddr != b.paddr then
      a.paddr.Some? && (b.paddr.None? || a.paddr.value < b.paddr.value)
    else a.bits > b.bits || (a.bits == b.bits && a.id <= b.id)
  }

  function InsertObject(o: SpecObject, s: seq<SpecObject>): seq<SpecObject> {
    if s == [] || Le(o, s[0]) then [o] + s else [s[0]] + InsertObject(o, s[1..])
  }

  function SortObjects(s: seq<SpecObject>): seq<SpecObject> {
    if s == [] then [] else InsertObject(s[0], SortObjects(s[1..]))
  }

  predicate Ordered(s: seq<SpecObject>) {
    forall i, j :: 0 <= i < j < |s| ==> Le(s[i], s[j])
  }

  lemma {:induction false} InsertKeeps(o: SpecObject, s: seq<SpecObject>)
    ensures multiset(InsertObject(o, s)) == multiset{o} + multiset(s)
    decreases |s|
  {
    if s != [] && !Le(o, s[0]) {
      InsertKeeps(o, s[1..]);
      assert s == [s[0]] + s[1..];
    }
  }

  lemma {:induction false} InsertOrdered(o: SpecObject, s: seq<SpecObject>)
    requires Ordered(s)
    ensures Ordered(InsertObject(o, s))
    decreases |s|
  {
    if s != [] && !Le(o, s[0]) {
      var t := InsertObject(o, s[1..]);
      InsertOrdered(o, s[1..]);
      InsertKeeps(o, s[1..]);
      forall j | 0 <= j < |t| ensures Le(s[0], t[j]) {
        assert t[j] in multiset(t);
        assert t[j] == o || t[j] in s[1..];
      }
    }
  }

  /** `sortObjects` yields the same objects, in order. */
  lemma {:induction false} SortObjectsSorts(s: seq<SpecObject>)
    ensures Ordered(SortObjects(s)) && multiset(SortObjects(s)) == multiset(s)
    decreases |s|
  {
    if s != [] {
      SortObjectsSorts(s[1..]);
      InsertOrdered(s[0], SortObjects(s[1..]));
      InsertKeeps(s[0], SortObjects(s[1..]));
      assert s == [s[0]] + s[1..];
    }
  }

  /** What the create loop makes of an object: address 0 counts as no address there. */
  function View(o: SpecObject): CdlObject {
    match o.kind
    case NoCreation => NotCreated
    case Issued => Elsewhere
    case Plain => if o.paddr.Some? && o.paddr.value != 0 then Elsewhere else Normal(o.bits)
  }

  function Views(s: seq<SpecObject>): (r: seq<CdlObject>)
    ensures |r| == |s| && forall i :: 0 <= i < |s| ==> r[i] == View(s[i])
  {
    seq(|s|, i requires 0 <= i < |s| => View(s[i]))
  }

  /** Normal objects declared at address 0 are sorted first, so they must be the largest. */
  predicate ZeroLargest(s: seq<SpecObject>) {
    forall i, j :: 0 <= i < |s| && 0 <= j < |s| ==> ZeroNoSmaller(s[i], s[j])
  }

  predicate ZeroNoSmaller(a: SpecObject, b: SpecObject) {
    a.kind == Plain && a.paddr == Some(0) && b.kind == Plain && b.paddr.None? ==> a.bits >= b.bits
  }

  /** The create loop meets its normal objects in descending size if and only if those at address 0 are the largest. */
  lemma {:induction false} SortedViewsDescend(s: seq<SpecObject>)
    ensures DescendingNormals(Views(SortObjects(s))) <==> ZeroLargest(s)
  {
    SortObjectsSorts(s);
    SameObjects(s, SortObjects(s));
    OrderedViews(SortObjects(s));
  }

  lemma {:induction false} SameObjects(s: seq<SpecObject>, t: seq<SpecObject>)
    requires multiset(s) == multiset(t)
    ensures ZeroLargest(s) <==> ZeroLargest(t)
  {
    assert forall o :: o in s <==> o in multiset(s);
    assert forall o :: o in t <==> o in multiset(t);
    assert forall i :: 0 <= i < |s| ==> s[i] in t;
    assert forall i :: 0 <= i < |t| ==> t[i] in s;
  }

  lemma {:induction false} OrderedViews(t: seq<SpecObject>)
    requires Ordered(t)
    ensures DescendingNormals(Views(t)) <==> ZeroLargest(t)
  {
    var v := Views(t);
    if ZeroLargest(t) {
      forall i, j | 0 <= i < j < |v| && v[i].Normal? && v[j].Normal? ensures v[i].bits >= v[j].bits {
        assert Le(t[i], t[j]) && ZeroNoSmaller(t[i], t[j]);
      }
    }
    if DescendingNormals(v) {
      forall i, j | 0 <= i < |t| && 0 <= j < |t| ensures ZeroNoSmaller(t[i], t[j]) {
        if j < i { assert Le(t[j], t[i]); }
        if i < j && v[i].Normal? && v[j].Normal? { assert v[i].bits >= v[j].bits; }
      }
    }
  }

  // ----- the sorted untypeds as blocks -----

  function Blocks(list: seq<UntypedDesc>, order: seq<nat>): (r: seq<Block>)
    requires forall k :: k in order ==> k < |list|
    ensures |r| == |order|
    ensures forall u :: 0 <= u < |r| ==>
                order[u] in order && r[u] == Block(list[order[u]].paddr, list[order[u]].sizeBits)
  {
    seq(|order|, u requires 0 <= u < |order| => assert order[u] in order;
        Block(list[order[u]].paddr, list[order[u]].sizeBits))
  }

  predicate SizeAligned(list: seq<UntypedDesc>) {
    forall i :: 0 <= i < |list| && !list[i].isDevice ==> Aligned(list[i].paddr, list[i].sizeBits)
  }

  function SortedBlocks(list: seq<UntypedDesc>, wordSize: nat): seq<Block>
    requires wordSize > 0
  {
    DescendingSorted(list, wordSize - 1);
    Blocks(list, Descending(list, wordSize - 1))
  }

  lemma {:induction false} SortedBlocksDescend(list: seq<UntypedDesc>, wordSize: nat)
    requires wordSize > 0 && SizesInRange(list, wordSize) && SizeAligned(list)
    ensures DescendingBlocks(SortedBlocks(list, wordSize))
  {
    SortedUntypedsExact(list, wordSize);
    var r, bs := Descending(list, wordSize - 1), SortedBlocks(list, wordSize);
    forall i | 0 <= i < |bs| ensures Aligned(bs[i].paddr, bs[i].bits) {
      assert r[i] in r;
    }
    forall i, j | 0 <= i < j < |bs| ensures bs[i].bits >= bs[j].bits {
      assert Precedes(list, r[i], r[j]);
    }
  }

  /**
   The two sorts and the create loop together: whatever order a spec and the boot untypeds come in, if
   no object declared at address 0 is smaller than one without an address and there is a normal untyped, the
   loader creates all objects exactly when the memory can hold them.
   */
  lemma {:induction false} LoaderOptimal(spec: seq<SpecObject>, list: seq<UntypedDesc>, wordSize: nat)
    requires wordSize > 0 && SizesInRange(list, wordSize) && SizeAligned(list)
    requires exists k :: 0 <= k < |list| && !list[k].isDevice
    requires ZeroLargest(spec)
    ensures var objs, uts := Views(SortObjects(spec)), SortedBlocks(list, wordSize);
            Create(objs, uts, 0, 0, 0).Some? <==> exists pl :: Placement(objs, uts, pl)
  {
    SortedViewsDescend(spec);
    SortedBlocksDescend(list, wordSize);
    SortedUntypedsExact(list, wordSize);
    var k :| 0 <= k < |list| && !list[k].isDevice;
    assert k in Descending(list, wordSize - 1);
    GreedyOptimal(Views(SortObjects(spec)), SortedBlocks(list, wordSize));
  }

  /** The condition on address 0 is exact: only under it is the loader optimal for every supply of untypeds. */
  lemma {:induction false} LoaderOptimalIff(spec: seq<SpecObject>)
    ensures OptimalAlways(Views(SortObjects(spec))) <==> ZeroLargest(spec)
  {
    SortedViewsDescend(spec);
    OptimalIffDescending(Views(SortObjects(spec)));
  }

  /** Address 0 can spoil it: such an object is sorted first whatever its size, yet takes memory from the untypeds. */
  lemma {:induction false} ZeroPaddrSpoilsOrder(spec: seq<SpecObject>)
    requires spec == [SpecObject(0, Plain, Some(0), 0), SpecObject(1, Plain, None, 1)]
    ensures var objs := Views(SortObjects(spec));
            && Create(objs, Exactly([1, 0]), 0, 0, 0).None?
            && Placement(objs, Exactly([1, 0]), Own(objs))
  {
    assert SortObjects(spec[1..][1..]) == [];
    assert SortObjects(spec[1..]) == [spec[1]];
    assert SortObjects(spec) == spec;
    assert Views(spec) == [Normal(0), Normal(1)];
    OrderMatters(Views(spec));
  }

  // ----- create_objects -----

  /** The number of slots handed out to the first `n` objects. */
  function Created(objs: seq<CdlObject>, n: nat): nat
    requires n <= |objs|
  {
    if n == 0 then 0 else Created(objs, n - 1) + if objs[n - 1].NotCreated? then 0 else 1
  }

  lemma {:induction false} CreatedGrows(objs: seq<CdlObject>, m: nat, n: nat)
    requires m <= n <= |objs|
    ensures Created(objs, m) <= Created(objs, n)
    ensures m < n && !objs[m].NotCreated? ==> Created(objs, m) < Created(objs, n)
    decreases n
  {
    if m < n { CreatedGrows(objs, m, n - 1); }
  }

  /** The kernel's view of the boot untypeds: their sizes, and a free index for each that only retype moves. */
  class Kernel {
    const list: seq<UntypedDesc>
    const start: nat
    var free: seq<nat>

    constructor (list: seq<UntypedDesc>, start: nat)
      ensures this.list == list && this.start == start
      ensures free == seq(|list|, _ => 0)
    {
      this.list := list;
      this.start := start;
      free := seq(|list|, _ => 0);
    }

    function BlockAt(k: nat): Block
      requires k < |list|
    {
      Block(list[k].paddr, list[k].sizeBits)
    }

    /**
     `seL4_Untyped_Retype`: takes memory from the untyped, or reports that there is not enough and changes nothing.
     */
    method Retype(cptr: nat, bits: nat) returns (ok: bool)
      requires start <= cptr < start + |list| == start + |free|
      modifies this
      ensures var k := cptr - start;
              && ok == RetypeFits(BlockAt(k), old(free[k]), bits)
              && free == if ok then old(free)[k := RetypeOffset(BlockAt(k), old(free[k]), bits) + Pow2(bits)]
                   else old(free)
    {
      var k := cptr - start;
      ok := RetypeFits(BlockAt(k), free[k], bits);
      if ok {
        free := free[k := RetypeOffset(BlockAt(k), free[k], bits) + Pow2(bits)];
      }
    }
  }

  /** The sorted list names distinct boot untypeds. */
  predicate ValidOrder(order: seq<nat>, n: nat) {
    && (forall v :: 0 <= v < |order| ==> order[v] < n)
    && (forall v, w :: 0 <= v < w < |order| ==> order[v] != order[w])
  }

  /** Entry `u` of the sorted list is current, and nothing has been taken from the ones after it. */
  predicate FreeAt(free: seq<nat>, order: seq<nat>, u: nat, f: nat) {
    && ValidOrder(order, |free|)
    && (u < |order| ==> free[order[u]] == f)
    && (forall v :: u < v < |order| ==> free[order[v]] == 0)
  }

  /** Each object created so far has the next slot in turn. */
  predicate SlotsInTurn(objs: seq<CdlObject>, caps: seq<nat>, base: nat, n: nat)
    requires n <= |objs|
  {
    && |caps| == |objs|
    && forall k {:trigger caps[k]} :: 0 <= k < n && !objs[k].NotCreated? ==> caps[k] == base + Created(objs, k)
  }

  /** Every created object has a slot of its own in `[base, limit)`. */
  predicate OwnSlots(objs: seq<CdlObject>, caps: seq<nat>, base: nat, limit: nat) {
    && |caps| == |objs|
    && (forall k :: 0 <= k < |objs| && !objs[k].NotCreated? ==> base <= caps[k] < limit)
    && (forall k, l :: 0 <= k < l < |objs| && !objs[k].NotCreated? && !objs[l].NotCreated? ==> caps[k] != caps[l])
  }

  lemma {:induction false} InTurnIsOwn(objs: seq<CdlObject>, caps: seq<nat>, base: nat)
    requires SlotsInTurn(objs, caps, base, |objs|)
    ensures OwnSlots(objs, caps, base, base + Created(objs, |objs|))
  {
    forall k | 0 <= k < |objs| && !objs[k].NotCreated? ensures base <= caps[k] < base + Created(objs, |objs|) {
      CreatedGrows(objs, k, |objs|);
    }
    forall k, l | 0 <= k < l < |objs| && !objs[k].NotCreated? && !objs[l].NotCreated? ensures caps[k] != caps[l] {
      CreatedGrows(objs, k, l);
    }
  }

  /** `create_object`: only a normal object takes memory, from the current untyped. */
  method CreateObject(obj: CdlObject, kernel: Kernel, cptr: nat, ghost order: seq<nat>, ghost u: nat, ghost f: nat)
    returns (ok: bool, ghost f': nat)
    requires !obj.NotCreated? && |kernel.free| == |kernel.list|
    requires u < |order| && FreeAt(kernel.free, order, u, f) && cptr == kernel.start + order[u]
    modifies kernel
    ensures |kernel.free| == |kernel.list| && FreeAt(kernel.free, order, u, f')
    ensures ok == (obj.Normal? ==> RetypeFits(kernel.BlockAt(order[u]), f, obj.bits))
    ensures f' == if ok && obj.Normal? then RetypeOffset(kernel.BlockAt(order[u]), f, obj.bits) + Pow2(obj.bits) else f
  {
    ok, f' := true, f;
    if obj.Normal? {
      ok := kernel.Retype(cptr, obj.bits);
      if ok { f' := RetypeOffset(kernel.BlockAt(order[u]), f, obj.bits) + Pow2(obj.bits); }
    }
  }

  /** The sorted untypeds as the kernel has them. */
  ghost predicate Backed(kernel: Kernel, cptrs: seq<nat>, order: seq<nat>, uts: seq<Block>) {
    && |order| <= |cptrs| && |uts| == |order| && ValidOrder(order, |kernel.list|)
    && forall v :: 0 <= v < |order| ==> cptrs[v] == kernel.start + order[v] && uts[v] == kernel.BlockAt(order[v])
  }

  lemma {:induction false} CreateUnfold(objs: seq<CdlObject>, uts: seq<Block>, i: nat, u: nat, f: nat)
    requires i < |objs| && u < |uts|
    ensures Create(objs, uts, i, u, f).Some? <==>
              if !objs[i].Normal? then Create(objs, uts, i + 1, u, f).Some?
              else if RetypeFits(uts[u], f, objs[i].bits) then
                Create(objs, uts, i + 1, u, RetypeOffset(uts[u], f, objs[i].bits) + Pow2(objs[i].bits)).Some?
              else Create(objs, uts, i, u + 1, 0).Some?
  {
  }

  /** The loop of `create_objects` over objects and sorted untypeds. */
  method CreateLoop(objs: seq<CdlObject>, kernel: Kernel, cptrs: seq<nat>, numNormal: nat, freeSlotStart: nat,
                    caps: array<nat>, ghost order: seq<nat>, ghost uts: seq<Block>)
    returns (objIndex: int, slotIndex: nat)
    requires numNormal == |order| && caps.Length == |objs| && |kernel.free| == |kernel.list|
    requires Backed(kernel, cptrs, order, uts) && FreeAt(kernel.free, order, 0, 0)
    modifies kernel, caps
    ensures 0 <= objIndex <= |objs| && (objIndex == |objs| <==> Create(objs, uts, 0, 0, 0).Some?)
    ensures slotIndex == Created(objs, objIndex) && SlotsInTurn(objs, caps[..], freeSlotStart, objIndex)
  {
    ghost var goal := Create(objs, uts, 0, 0, 0).Some?;
    var utIndex: nat := 0;
    objIndex, slotIndex := 0, 0;
    ghost var f: nat := 0;
    while objIndex < |objs| && utIndex < numNormal
      invariant 0 <= objIndex <= |objs| && utIndex <= numNormal
      invariant |kernel.free| == |kernel.list| && FreeAt(kernel.free, order, utIndex, f)
      invariant slotIndex == Created(objs, objIndex) && SlotsInTurn(objs, caps[..], freeSlotStart, objIndex)
      invariant Create(objs, uts, objIndex, utIndex, f).Some? == goal
      decreases |objs| - objIndex + numNormal - utIndex
    {
      CreateUnfold(objs, uts, objIndex, utIndex, f);
      if !objs[objIndex].NotCreated? {
        var ok;
        ok, f := CreateObject(objs[objIndex], kernel, cptrs[utIndex], order, utIndex, f);
        if ok {
          AddCap(objs, objIndex, freeSlotStart, slotIndex, caps);
          slotIndex := slotIndex + 1;
        } else {
          utIndex := utIndex + 1;
          objIndex := objIndex - 1;
          f := 0;
        }
      }
      objIndex := objIndex + 1;
    }
  }

  /** `add_sel4_cap` for a new object: it gets the first free slot. */
  method AddCap(objs: seq<CdlObject>, objId: nat, freeSlotStart: nat, slotIndex: nat, caps: array<nat>)
    requires objId < |objs| && SlotsInTurn(objs, caps[..], freeSlotStart, objId) && slotIndex == Created(objs, objId)
    modifies caps
    ensures caps[..] == old(caps[..])[objId := freeSlotStart + slotIndex]
    ensures SlotsInTurn(objs, caps[..], freeSlotStart, objId + 1)
  {
    caps[objId] := freeSlotStart + slotIndex;
  }

  /** Entry `a` is the last of the first `n` that names its pool. */
  predicate LastNamed(asidSlots: seq<nat>, a: nat, n: nat)
    requires a < n <= |asidSlots|
  {
    forall b :: a < b < n ==> asidSlots[b] != asidSlots[a]
  }

  /** Of the first `n` entries, the one for high bits `a` has its pool in the `a`-th new slot. */
  predicate PoolsInTurn(asidSlots: seq<nat>, caps: seq<nat>, base: nat, n: nat)
    requires n <= |asidSlots| && forall a :: 0 < a < n ==> asidSlots[a] < |caps|
  {
    forall a :: 0 < a < n && LastNamed(asidSlots, a, n) ==> caps[asidSlots[a]] == base + a - 1
  }

  /**
   The pass that turns backing untypeds into ASID pools, in the order of the ASID slots, each in the next new slot.
   */
  method MakeAsidPools(objs: seq<CdlObject>, asidSlots: seq<nat>, freeSlotStart: nat, slotIndex: nat,
                       caps: array<nat>) returns (slotIndex': nat)
    requires OwnSlots(objs, caps[..], freeSlotStart, freeSlotStart + slotIndex)
    requires forall a :: 0 < a < |asidSlots| ==> asidSlots[a] < |objs| && !objs[asidSlots[a]].NotCreated?
    modifies caps
    ensures slotIndex' == slotIndex + if |asidSlots| > 1 then |asidSlots| - 1 else 0
    ensures OwnSlots(objs, caps[..], freeSlotStart, freeSlotStart + slotIndex')
    ensures forall k :: 0 <= k < |objs| && k !in asidSlots[if |asidSlots| > 0 then 1 else 0..] ==>
                caps[k] == old(caps[k])
    ensures PoolsInTurn(asidSlots, caps[..], freeSlotStart + slotIndex, |asidSlots|)
  {
    slotIndex' := slotIndex;
    var asidHigh := 1;
    while asidHigh < |asidSlots|
      invariant 1 <= asidHigh && (|asidSlots| > 0 ==> asidHigh <= |asidSlots|)
      invariant |asidSlots| == 0 ==> slotIndex' == slotIndex
      invariant slotIndex' == slotIndex + asidHigh - 1
      invariant OwnSlots(objs, caps[..], freeSlotStart, freeSlotStart + slotIndex')
      invariant forall k | 0 <= k < |objs| && (forall a :: 0 < a < asidHigh && a < |asidSlots| ==> asidSlots[a] != k) ::
                  caps[k] == old(caps[k])
      invariant |asidSlots| > 0 ==> PoolsInTurn(asidSlots, caps[..], freeSlotStart + slotIndex, asidHigh)
    {
      var objId := asidSlots[asidHigh];
      NextPool(asidSlots, caps[..], freeSlotStart + slotIndex, asidHigh);
      caps[objId] := freeSlotStart + slotIndex';
      slotIndex' := slotIndex' + 1;
      asidHigh := asidHigh + 1;
    }
    forall k | 0 <= k < |objs| && k !in asidSlots[if |asidSlots| > 0 then 1 else 0..] ensures caps[k] == old(caps[k]) {
      forall a | 0 < a < |asidSlots| ensures asidSlots[a] != k {
        assert asidSlots[1..][a - 1] == asidSlots[a];
      }
    }
  }

  lemma {:induction false} NextPool(asidSlots: seq<nat>, caps: seq<nat>, base: nat, n: nat)
    requires 0 < n < |asidSlots| && forall a :: 0 < a <= n ==> asidSlots[a] < |caps|
    requires PoolsInTurn(asidSlots, caps, base, n)
    ensures PoolsInTurn(asidSlots, caps[asidSlots[n] := base + n - 1], base, n + 1)
  {
    var caps' := caps[asidSlots[n] := base + n - 1];
    forall a | 0 < a < n + 1 && LastNamed(asidSlots, a, n + 1) ensures caps'[asidSlots[a]] == base + a - 1 {
      if a < n { assert LastNamed(asidSlots, a, n); }
    }
  }

  /**
   `create_objects` with dynamic allocation: sort the untypeds, create the objects, make the ASID
   pools. It gets through exactly when the create loop does, and then every object that requires
   creation has a capability slot of its own below the new start of the free slots: the next in turn, and a pool the one
   of its ASID slot behind those of all objects.
   */
  method CreateObjects(objs: seq<CdlObject>, kernel: Kernel, wordSize: nat, asidSlots: seq<nat>,
                       freeSlotStart: nat, cptrs: array<nat>, caps: array<nat>)
    returns (ok: bool, freeSlotStart': nat)
    requires wordSize > 0 && SizesInRange(kernel.list, wordSize)
    requires kernel.free == seq(|kernel.list|, _ => 0)
    requires cptrs != caps && |kernel.list| <= cptrs.Length && caps.Length == |objs|
    requires forall a :: 0 < a < |asidSlots| ==> asidSlots[a] < |objs| && !objs[asidSlots[a]].NotCreated?
    modifies kernel, cptrs, caps
    ensures ok <==> Create(objs, SortedBlocks(kernel.list, wordSize), 0, 0, 0).Some?
    ensures ok ==>
            freeSlotStart' == freeSlotStart + Created(objs, |objs|) + if |asidSlots| > 1 then |asidSlots| - 1 else 0
    ensures ok ==> OwnSlots(objs, caps[..], freeSlotStart, freeSlotStart')
    ensures ok ==> forall k :: 0 <= k < |objs| && !objs[k].NotCreated?
                               && k !in asidSlots[if |asidSlots| > 0 then 1 else 0..] ==>
                     caps[k] == freeSlotStart + Created(objs, k)
    ensures ok ==> PoolsInTurn(asidSlots, caps[..], freeSlotStart + Created(objs, |objs|), |asidSlots|)
  {
    ghost var order, uts := Descending(kernel.list, wordSize - 1), SortedBlocks(kernel.list, wordSize);
    SortedOrder(kernel.list, wordSize);
    freeSlotStart' := freeSlotStart;
    var numNormal := SortUntypeds(kernel.list, kernel.start, wordSize, cptrs);
    assert forall v :: 0 <= v < numNormal ==> cptrs[..numNormal][v] == kernel.start + order[v];
    var objIndex, slotIndex := CreateLoop(objs, kernel, cptrs[..numNormal], numNormal, freeSlotStart, caps, order, uts);
    ok := objIndex == |objs|;
    if ok {
      InTurnIsOwn(objs, caps[..], freeSlotStart);
      slotIndex := MakeAsidPools(objs, asidSlots, freeSlotStart, slotIndex, caps);
      freeSlotStart' := freeSlotStart + slotIndex;
    }
  }

  lemma {:induction false} SortedOrder(list: seq<UntypedDesc>, wordSize: nat)
    requires wordSize > 0 && SizesInRange(list, wordSize)
    ensures ValidOrder(Descending(list, wordSize - 1), |list|)
    ensures |Descending(list, wordSize - 1)| <= |list|
  {
    SortedUntypedsExact(list, wordSize);
    var r := Descending(list, wordSize - 1);
    forall v | 0 <= v < |r| ensures r[v] < |list| { assert r[v] in r; }
    CountsAgree(list, wordSize);
    NormalCountBound(list, |list|);
  }

  lemma {:induction false} NormalCountBound(list: seq<UntypedDesc>, n: nat)
    requires n <= |list|
    ensures NormalCount(list, n) <= n
  {
    if n > 0 { NormalCountBound(list, n - 1); }
  }
}
