/**
 How much the order of the objects matters to the create loop: it is optimal for every supply of untypeds
 if and only if the objects come in descending size.
 */
module Optimality {
  import opened Wrappers
  import opened Arithmetic
  import opened Physical
  import opened Greedy

  /** Untypeds that are disjoint in physical memory. */
  predicate BlocksApart(uts: seq<Block>) {
    forall i, j :: 0 <= i < j < |uts| ==>
        uts[i].paddr + uts[i].Size() <= uts[j].paddr || uts[j].paddr + uts[j].Size() <= uts[i].paddr
  }

  predicate Supply(uts: seq<Block>) {
    uts != [] && DescendingBlocks(uts) && BlocksApart(uts)
  }

  /** Whatever the sorted untypeds, the loop creates all objects whenever they can be placed at all. */
  ghost predicate OptimalAlways(objs: seq<CdlObject>) {
    forall uts :: Supply(uts) ==> (Create(objs, uts, 0, 0, 0).Some? <==> exists pl :: Placement(objs, uts, pl))
  }

  // ----- a supply that fits the objects exactly: one untyped for each -----

  function Position(x: nat, bs: seq<nat>): (p: nat)
    ensures p <= |bs| && (forall k :: 0 <= k < p ==> bs[k] >= x) && (p < |bs| ==> bs[p] < x)
  {
    if bs == [] || bs[0] < x then 0 else 1 + Position(x, bs[1..])
  }

  function InsertBits(x: nat, bs: seq<nat>): seq<nat> {
    bs[..Position(x, bs)] + [x] + bs[Position(x, bs)..]
  }

  /** The sizes of the normal objects, largest first. */
  function SortedBits(objs: seq<CdlObject>): seq<nat> {
    if objs == [] then []
    else
      var o := objs[|objs| - 1];
      var bs := SortedBits(objs[..|objs| - 1]);
      if o.Normal? then InsertBits(o.bits, bs) else bs
  }

  predicate LargestFirst(bs: seq<nat>) {
    forall i, j :: 0 <= i < j < |bs| ==> bs[i] >= bs[j]
  }

  function Total(bs: seq<nat>, n: nat): nat
    requires n <= |bs|
  {
    if n == 0 then 0 else Total(bs, n - 1) + Pow2(bs[n - 1])
  }

  /** Untypeds of these sizes, one after the other from address 0. */
  function Exactly(bs: seq<nat>): (uts: seq<Block>)
    ensures |uts| == |bs| && forall k {:trigger uts[k]} :: 0 <= k < |bs| ==> uts[k] == Block(Total(bs, k), bs[k])
  {
    seq(|bs|, k requires 0 <= k < |bs| => Block(Total(bs, k), bs[k]))
  }

  lemma {:induction false} SortedBitsDescend(objs: seq<CdlObject>)
    ensures LargestFirst(SortedBits(objs))
    decreases |objs|
  {
    if objs != [] { SortedBitsDescend(objs[..|objs| - 1]); }
  }

  lemma {:induction false} TotalAligned(bs: seq<nat>, n: nat, k: nat)
    requires LargestFirst(bs) && n <= k < |bs|
    ensures Aligned(Total(bs, n), bs[k])
  {
    if n == 0 {
      ZeroAligned(bs[k]);
    } else {
      TotalAligned(bs, n - 1, k);
      Pow2Aligned(bs[k], bs[n - 1]);
      AlignedAdd(Total(bs, n - 1), Pow2(bs[n - 1]), bs[k]);
    }
  }

  lemma {:induction false} TotalGrows(bs: seq<nat>, m: nat, n: nat)
    requires m <= n <= |bs|
    ensures Total(bs, m) <= Total(bs, n)
    decreases n
  {
    if m < n { TotalGrows(bs, m, n - 1); }
  }

  lemma {:induction false} ExactlyIsSupply(bs: seq<nat>)
    requires bs != [] && LargestFirst(bs)
    ensures Supply(Exactly(bs))
  {
    var uts := Exactly(bs);
    forall i | 0 <= i < |uts| ensures Aligned(uts[i].paddr, uts[i].bits) { TotalAligned(bs, i, i); }
    forall i, j | 0 <= i < j < |uts| ensures uts[i].paddr + uts[i].Size() <= uts[j].paddr {
      TotalApart(bs, i, j);
    }
  }

  lemma {:induction false} TotalApart(bs: seq<nat>, i: nat, j: nat)
    requires i < j <= |bs|
    ensures Total(bs, i) + Pow2(bs[i]) <= Total(bs, j)
  {
    var next := i + 1;
    TotalGrows(bs, next, j);
  }

  // ----- every object in an untyped of its own -----

  function Shift(p: Place, at: nat): Place {
    if p.At? && p.ut >= at then At(p.ut + 1, p.offset) else p
  }

  function ShiftAll(pl: seq<Place>, at: nat): (r: seq<Place>)
    ensures |r| == |pl| && forall i :: 0 <= i < |pl| ==> r[i] == Shift(pl[i], at)
  {
    seq(|pl|, i requires 0 <= i < |pl| => Shift(pl[i], at))
  }

  function Own(objs: seq<CdlObject>): (pl: seq<Place>)
    ensures |pl| == |objs|
  {
    if objs == [] then []
    else
      var before, o := objs[..|objs| - 1], objs[|objs| - 1];
      var pl := Own(before);
      if !o.Normal? then pl + [NoMemory]
      else
        var at := Position(o.bits, SortedBits(before));
        ShiftAll(pl, at) + [At(at, 0)]
  }

  predicate OwnPlace(o: CdlObject, bs: seq<nat>, p: Place) {
    o.Normal? ==> p.At? && p.ut < |bs| && p.offset == 0 && bs[p.ut] == o.bits
  }

  predicate OwnPlaces(objs: seq<CdlObject>, bs: seq<nat>, pl: seq<Place>) {
    && |pl| == |objs|
    && (forall i :: 0 <= i < |objs| ==> OwnPlace(objs[i], bs, pl[i]))
    && (forall i, j :: 0 <= i < j < |objs| && objs[i].Normal? && objs[j].Normal? ==>
            pl[i].At? && pl[j].At? && pl[i].ut != pl[j].ut)
  }

  lemma {:induction false} ShiftKeeps(o: CdlObject, bs: seq<nat>, p: Place, x: nat)
    requires OwnPlace(o, bs, p)
    ensures OwnPlace(o, InsertBits(x, bs), Shift(p, Position(x, bs)))
  {
  }

  lemma {:induction false} ShiftApart(p: Place, q: Place, at: nat)
    requires p.At? && (q.At? ==> p.ut != q.ut)
    ensures Shift(p, at).At? && Shift(p, at).ut != at
            && (q.At? ==> Shift(q, at).At? && Shift(p, at).ut != Shift(q, at).ut)
  {
  }

  lemma {:induction false} OwnOneMore(objs: seq<CdlObject>, bs: seq<nat>, pl: seq<Place>, o: CdlObject)
    requires OwnPlaces(objs, bs, pl) && o.Normal?
    ensures var at := Position(o.bits, bs);
            OwnPlaces(objs + [o], InsertBits(o.bits, bs), ShiftAll(pl, at) + [At(at, 0)])
  {
    var at := Position(o.bits, bs);
    var objs', bs', pl' := objs + [o], InsertBits(o.bits, bs), ShiftAll(pl, at) + [At(at, 0)];
    assert OwnPlace(o, bs', At(at, 0));
    forall i | 0 <= i < |objs| ensures OwnPlace(objs[i], bs', Shift(pl[i], at)) {
      ShiftKeeps(objs[i], bs, pl[i], o.bits);
    }
    forall i, j | 0 <= i < j < |objs'| && objs'[i].Normal? && objs'[j].Normal?
      ensures pl'[i].At? && pl'[j].At? && pl'[i].ut != pl'[j].ut
    {
      assert OwnPlace(objs[i], bs, pl[i]);
      ShiftApart(pl[i], if j < |objs| then pl[j] else NoMemory, at);
    }
  }

  lemma {:induction false} OwnIsOwn(objs: seq<CdlObject>)
    ensures OwnPlaces(objs, SortedBits(objs), Own(objs))
    decreases |objs|
  {
    if objs != [] {
      var n := |objs| - 1;
      OwnIsOwn(objs[..n]);
      assert objs == objs[..n] + [objs[n]];
      if objs[n].Normal? { OwnOneMore(objs[..n], SortedBits(objs[..n]), Own(objs[..n]), objs[n]); }
    }
  }

  lemma {:induction false} OwnIsPlacement(objs: seq<CdlObject>)
    ensures Placement(objs, Exactly(SortedBits(objs)), Own(objs))
  {
    var bs, pl := SortedBits(objs), Own(objs);
    var uts := Exactly(bs);
    OwnIsOwn(objs);
    SortedBitsDescend(objs);
    forall i | 0 <= i < |objs| ensures InBlock(objs, uts, pl, i) && AlignedAt(objs, uts, pl, i) {
      assert OwnPlace(objs[i], bs, pl[i]);
      if objs[i].Normal? { TotalAligned(bs, pl[i].ut, pl[i].ut); }
    }
  }

  // ----- sizes of at least `b` -----

  function TotalFrom(bs: seq<nat>, b: nat): nat {
    if bs == [] then 0 else TotalFrom(bs[..|bs| - 1], b) + if bs[|bs| - 1] >= b then Pow2(bs[|bs| - 1]) else 0
  }

  lemma {:induction false} TotalFromAppend(a: seq<nat>, c: seq<nat>, b: nat)
    ensures TotalFrom(a + c, b) == TotalFrom(a, b) + TotalFrom(c, b)
    decreases |c|
  {
    if c == [] {
      assert a + c == a;
    } else {
      assert (a + c)[..|a + c| - 1] == a + c[..|c| - 1];
      TotalFromAppend(a, c[..|c| - 1], b);
    }
  }

  lemma {:induction false} TotalFromInsert(x: nat, bs: seq<nat>, b: nat)
    ensures TotalFrom(InsertBits(x, bs), b) == TotalFrom(bs, b) + if x >= b then Pow2(x) else 0
  {
    var p := Position(x, bs);
    TotalFromAppend(bs[..p] + [x], bs[p..], b);
    TotalFromAppend(bs[..p], [x], b);
    TotalFromAppend(bs[..p], bs[p..], b);
    assert bs[..p] + bs[p..] == bs;
    assert [x][..0] == [];
  }

  /** In descending order the sizes of at least `b` come first. */
  lemma {:induction false} LargeFirst(bs: seq<nat>, b: nat) returns (m: nat)
    requires LargestFirst(bs)
    ensures m <= |bs| && Total(bs, m) == TotalFrom(bs, b) && forall k :: 0 <= k < |bs| ==> (bs[k] >= b <==> k < m)
    decreases |bs|
  {
    m := |bs|;
    if bs != [] {
      var n := |bs| - 1;
      var m' := LargeFirst(bs[..n], b);
      assert forall k :: 0 <= k < n ==> bs[..n][k] == bs[k];
      TotalPrefix(bs, n, m');
      if bs[n] < b { m := m'; } else { assert n > 0 ==> bs[n - 1] >= b; assert m' == n; }
    }
  }

  lemma {:induction false} TotalPrefix(bs: seq<nat>, n: nat, m: nat)
    requires m <= n <= |bs|
    ensures Total(bs[..n], m) == Total(bs, m)
    decreases m
  {
    if m > 0 { TotalPrefix(bs, n, m - 1); }
  }

  /** The objects of at least `b`, and object `z`; everything else blanked out. */
  function Masked(objs: seq<CdlObject>, b: nat, z: nat): (r: seq<CdlObject>)
    ensures |r| == |objs|
    ensures forall k :: 0 <= k < |objs| ==>
              r[k] == if objs[k].Normal? && (objs[k].bits >= b || k == z) then objs[k] else NotCreated
  {
    seq(|objs|, k requires 0 <= k < |objs| =>
      if objs[k].Normal? && (objs[k].bits >= b || k == z) then objs[k] else NotCreated)
  }

  lemma {:induction false} MaskedDemand(objs: seq<CdlObject>, b: nat, z: nat, n: nat)
    requires n <= |objs| && z < |objs| && objs[z].Normal? && objs[z].bits < b
    ensures Demand(Masked(objs, b, z), n)
         == TotalFrom(SortedBits(objs[..n]), b) + if z < n then Pow2(objs[z].bits) else 0
    decreases n
  {
    if n > 0 {
      MaskedDemand(objs, b, z, n - 1);
      var o := objs[n - 1];
      assert objs[..n][..n - 1] == objs[..n - 1] && objs[..n][n - 1] == o;
      if o.Normal? { TotalFromInsert(o.bits, SortedBits(objs[..n - 1]), b); }
    }
  }

  lemma {:induction false} CapacityTotal(bs: seq<nat>, m: nat)
    requires m <= |bs|
    ensures Capacity(Exactly(bs)[..m], m) == Total(bs, m)
  {
    CapacityIs(bs, m, m);
  }

  lemma {:induction false} CapacityIs(bs: seq<nat>, m: nat, n: nat)
    requires n <= m <= |bs|
    ensures Capacity(Exactly(bs)[..m], n) == Total(bs, n)
    decreases n
  {
    if n > 0 {
      var k := n - 1;
      CapacityIs(bs, m, k);
      assert Exactly(bs)[..m][k] == Exactly(bs)[k];
    }
  }

  // ----- the loop never goes back -----

  predicate Onward(objs: seq<CdlObject>, i: nat, tail: seq<Place>) {
    && i + |tail| == |objs|
    && forall k, l :: 0 <= k < l < |tail| && objs[i + k].Normal? && objs[i + l].Normal? ==>
         tail[k].At? && tail[l].At? && tail[k].ut <= tail[l].ut
  }

  lemma {:induction false} NeverBack(objs: seq<CdlObject>, uts: seq<Block>, i: nat, u: nat, free: nat)
    requires i <= |objs| && u <= |uts| && Create(objs, uts, i, u, free).Some?
    ensures Onward(objs, i, Create(objs, uts, i, u, free).value)
    decreases |objs| - i + |uts| - u
  {
    if i < |objs| {
      match objs[i]
      case Normal(bits) =>
        if RetypeFits(uts[u], free, bits) {
          var at := RetypeOffset(uts[u], free, bits);
          NeverBack(objs, uts, i + 1, u, at + Pow2(bits));
          SuccessIsSound(objs, uts, i + 1, u, at + Pow2(bits));
          OnwardCons(objs, uts, i, u, at + Pow2(bits), At(u, at), Create(objs, uts, i + 1, u, at + Pow2(bits)).value);
        } else {
          NeverBack(objs, uts, i, u + 1, 0);
        }
      case _ =>
        NeverBack(objs, uts, i + 1, u, free);
        SuccessIsSound(objs, uts, i + 1, u, free);
        OnwardCons(objs, uts, i, u, free, NoMemory, Create(objs, uts, i + 1, u, free).value);
    }
  }

  lemma {:induction false} OnwardCons(objs: seq<CdlObject>, uts: seq<Block>, i: nat, u: nat, free: nat, p: Place,
                                      tail: seq<Place>)
    requires i < |objs| && Onward(objs, i + 1, tail) && GoodTail(objs, uts, i + 1, u, free, tail)
    requires objs[i].Normal? ==> p.At? && p.ut == u
    ensures Onward(objs, i, [p] + tail)
  {
    var r := [p] + tail;
    forall k, l | 0 <= k < l < |r| && objs[i + k].Normal? && objs[i + l].Normal?
        ensures r[k].At? && r[l].At? && r[k].ut <= r[l].ut {
      assert GoodPlace(objs[i + 1 + (l - 1)], uts, u, free, tail[l - 1]);
      if k > 0 { assert objs[i + 1 + (k - 1)].Normal? && r[k] == tail[k - 1]; }
    }
  }

  // ----- out of order, the exact supply does not suffice -----

  lemma {:induction false} LargeInLarge(b: nat, x: nat, y: nat)
    requires b <= x && Pow2(x) <= Pow2(y)
    ensures b <= y
  {
    if y < b { Pow2Monotone(y, b); Pow2Monotone(b, x); }
  }

  lemma {:induction false} ExactSupplyFails(objs: seq<CdlObject>, z: nat, n: nat)
    requires z < n < |objs| && objs[z].Normal? && objs[n].Normal? && objs[z].bits < objs[n].bits
    ensures Create(objs, Exactly(SortedBits(objs)), 0, 0, 0).None?
  {
    var bs, b := SortedBits(objs), objs[n].bits;
    var uts := Exactly(bs);
    SortedBitsDescend(objs);
    var r := Create(objs, uts, 0, 0, 0);
    if r.Some? {
      var pl := r.value;
      var m := LargeFirst(bs, b);
      SuccessIsPlacement(objs, uts);
      NeverBack(objs, uts, 0, 0, 0);
      MaskedPacking(objs, bs, pl, z, n, m);
      MaskedDemand(objs, b, z, |objs|);
      assert objs[..|objs|] == objs;
      CapacityTotal(bs, m);
      OverfullRefutes(Masked(objs, b, z), uts[..m], |objs|, m, pl);
    }
  }

  /**
   If the loop got through, the large objects and the small one before the last of them would share the large
   untypeds.
   */
  lemma {:induction false} MaskedPacking(objs: seq<CdlObject>, bs: seq<nat>, pl: seq<Place>, z: nat, n: nat, m: nat)
    requires z < n < |objs| && objs[z].Normal? && objs[n].Normal? && objs[z].bits < objs[n].bits
    requires Packing(objs, Exactly(bs), pl) && Onward(objs, 0, pl)
    requires m <= |bs| && forall k :: 0 <= k < |bs| ==> (bs[k] >= objs[n].bits <==> k < m)
    ensures Packing(Masked(objs, objs[n].bits, z), Exactly(bs)[..m], pl)
  {
    var b := objs[n].bits;
    var uts, mask := Exactly(bs), Masked(objs, b, z);
    forall i | 0 <= i < |objs| && objs[i].Normal? && objs[i].bits >= b ensures pl[i].At? && pl[i].ut < m {
      assert InBlock(objs, uts, pl, i);
      LargeInLarge(b, objs[i].bits, bs[pl[i].ut]);
    }
    assert objs[0 + z].Normal? && objs[0 + n].Normal?;
    assert pl[z].At? && pl[z].ut <= pl[n].ut < m;
    forall i | 0 <= i < |mask| ensures InBlock(mask, uts[..m], pl, i) {
      assert InBlock(objs, uts, pl, i);
    }
    forall i, j | 0 <= i < j < |mask| ensures Disjoint(mask, pl, i, j) {
      assert Disjoint(objs, pl, i, j);
    }
  }

  /** Descending order is not only enough for the loop to be optimal on every supply, it is necessary. */
  lemma {:induction false} OptimalIffDescending(objs: seq<CdlObject>)
    ensures OptimalAlways(objs) <==> DescendingNormals(objs)
  {
    if DescendingNormals(objs) {
      forall uts | Supply(uts) ensures Create(objs, uts, 0, 0, 0).Some? <==> exists pl :: Placement(objs, uts, pl) {
        GreedyOptimal(objs, uts);
      }
    } else {
      var uts, pl := OutOfOrder(objs);
    }
  }

  /** Out of order there is a supply on which the loop fails although every object could have an untyped of its own. */
  lemma {:induction false} OutOfOrder(objs: seq<CdlObject>) returns (uts: seq<Block>, pl: seq<Place>)
    requires !DescendingNormals(objs)
    ensures Supply(uts) && Placement(objs, uts, pl) && Create(objs, uts, 0, 0, 0).None?
  {
    var z, n :| 0 <= z < n < |objs| && objs[z].Normal? && objs[n].Normal? && objs[z].bits < objs[n].bits;
    var bs := SortedBits(objs);
    uts, pl := Exactly(bs), Own(objs);
    ExactSupplyFails(objs, z, n);
    OwnIsPlacement(objs);
    assert bs != [] by {
      OwnIsOwn(objs);
      assert OwnPlace(objs[z], bs, pl[z]);
    }
    SortedBitsDescend(objs);
    ExactlyIsSupply(bs);
  }

  /** A byte before two bytes: with an untyped for each the loop fails, as it puts the byte in the larger one. */
  lemma {:induction false} OrderMatters(objs: seq<CdlObject>)
    requires objs == [Normal(0), Normal(1)]
    ensures Supply(Exactly([1, 0])) && Placement(objs, Exactly([1, 0]), Own(objs))
    ensures Create(objs, Exactly([1, 0]), 0, 0, 0).None?
  {
    TwoBits(objs);
    SortedBitsDescend(objs);
    ExactlyIsSupply([1, 0]);
    ExactSupplyFails(objs, 0, 1);
    OwnIsPlacement(objs);
  }

  lemma {:induction false} TwoBits(objs: seq<CdlObject>)
    requires objs == [Normal(0), Normal(1)]
    ensures SortedBits(objs) == [1, 0]
  {
    assert objs[..1] == [Normal(0)] && objs[..1][..0] == [];
    assert SortedBits(objs[..1][..0]) == [];
    assert SortedBits(objs[..1]) == [0];
    assert Position(1, [0]) == 0;
  }
}
