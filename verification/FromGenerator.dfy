/**
 The untyped generator and the allocator joined: what is generated is accepted, and what is placed in it
 lies in available memory that is not reserved.
 */
module FromGenerator {
  import opened Arithmetic
  import opened Physical
  import opened Untypeds
  import opened BestFit
  import opened Allocation
  import opened UntypedList
  import opened FreeMemory
  import opened UntypedGen

  /** Generated blocks as the allocator reads them back, under some names. */
  function AsUntypeds(us: seq<Block>, names: nat -> string): (ts: seq<Tagged>)
    ensures |ts| == |us|
    ensures forall k: nat {:trigger ts[k]} :: k < |us| ==>
                ts[k] == Tagged(Ut(names(k), us[k].bits, us[k].paddr, 0, []), false)
  {
    seq(|us|, k requires 0 <= k < |us| => Tagged(Ut(names(k), us[k].bits, us[k].paddr, 0, []), false))
  }

  lemma {:induction false} NotLess(t: Tagged, s: Tagged)
    requires s.ut.End() <= t.ut.paddr
    ensures !TaggedLess(t, s)
  {
  }

  /** A block behind all others is accepted and goes to the end of the list. */
  lemma {:induction false} AcceptedLast(ts: seq<Tagged>, t: Tagged)
    requires SortedApart(ts) && Aligned(t.ut.paddr, t.ut.sizeBits)
    requires forall i :: 0 <= i < |ts| ==> ts[i].ut.End() <= t.ut.paddr
    ensures Judge(ts, t) == Accepted && Insert(ts, t) == ts + [t]
  {
    NeighboursSuffice(ts, t);
    var i := BisectRight(ts, t);
    if i < |ts| {
      NotLess(t, ts[i]);
      assert false;
    }
  }

  lemma {:induction false} PrefixAccepted(ts: seq<Tagged>, k: nat)
    requires SortedApart(ts) && k < |ts|
    ensures Judge(ts[..k], ts[k]) == Accepted && Insert(ts[..k], ts[k]) == ts[..k + 1]
  {
    AcceptedLast(ts[..k], ts[k]);
    assert ts[..k] + [ts[k]] == ts[..k + 1];
  }

  lemma {:induction false} RestAccepted(ts: seq<Tagged>, k: nat)
    requires SortedApart(ts) && k <= |ts|
    ensures AddAll(ts[..k], ts[k..]) == ts
    decreases |ts| - k
  {
    if k == |ts| {
      assert ts[..k] == ts && ts[k..] == [];
    } else {
      PrefixAccepted(ts, k);
      assert ts[k..][0] == ts[k] && ts[k..][1..] == ts[k + 1..];
      RestAccepted(ts, k + 1);
    }
  }

  lemma {:induction false} AllAccepted(ts: seq<Tagged>)
    requires SortedApart(ts)
    ensures AddAll([], ts) == ts && forall k: nat :: k < |ts| ==> Judge(ts[..k], ts[k]) == Accepted
  {
    RestAccepted(ts, 0);
    assert ts[..0] == [] && ts[0..] == ts;
    forall k: nat | k < |ts| ensures Judge(ts[..k], ts[k]) == Accepted { PrefixAccepted(ts, k); }
  }

  lemma {:induction false} OrderedSorted(us: seq<Block>, names: nat -> string, lo: nat, hi: nat)
    requires Ordered(us, lo, hi)
    ensures SortedApart(AsUntypeds(us, names)) && AllReady(AsUntypeds(us, names))
  {
    var ts := AsUntypeds(us, names);
    forall k: nat | k < |ts| ensures Ready(ts[k]) {
      FreshIsLaid(ts[k].ut);
    }
    forall i: nat, j: nat | i < j < |ts| ensures ts[i].ut.End() <= ts[j].ut.paddr {
      assert EndOf(us[i]) <= us[j].paddr;
    }
  }

  /** Every byte of every child is available and not reserved. */
  ghost predicate OnFreeMemory(uts: seq<Tagged>, av: seq<Region>, rs: seq<Region>) {
    forall i: nat, k: nat, x: int :: i < |uts| && k < |uts[i].ut.children| && InChild(uts[i].ut, k, x)
      ==> InSome(x, av) && !InSome(x, rs)
  }

  predicate InChild(u: Ut, k: nat, x: int)
    requires k < |u.children|
  {
    u.ChildAddr(k) <= x < u.ChildAddr(k) + ChildSize(u.children[k])
  }

  /**
   From physical memory to kernel objects. When nothing spills, the generator succeeds, `add_untyped` accepts its
   untypeds one after the other, and every child that `allocate` places in them, whether it succeeds or not, consists of
   available bytes that are not reserved.
   */
  lemma {:induction false} ObjectsOnFreeMemory(av: seq<Region>, rs: seq<Region>, max: nat, min: nat,
                                               names: nat -> string, objs: seq<Object>)
    requires Disjoint(av) && ByStart(rs) && (rs != [] ==> !Empty(rs[|rs| - 1])) && !Spilling(av, rs)
    ensures FreeMem(av, rs).Some?
    ensures var ts := AsUntypeds(Generate(FreeMem(av, rs).value, max, min), names);
            && AddAll([], ts) == ts
            && (forall k: nat :: k < |ts| ==> Judge(ts[..k], ts[k]) == Accepted)
            && AllReady(ts) && OnFreeMemory(Allocate(objs, ts).uts, av, rs)
  {
    UntypedsAreFree(av, rs, max, min);
    var us := Generate(FreeMem(av, rs).value, max, min);
    GeneratedAccepted(us, names);
    ChildrenFree(us, names, objs, av, rs);
  }

  lemma {:induction false} GeneratedAccepted(us: seq<Block>, names: nat -> string)
    requires exists hi :: Ordered(us, 0, hi)
    ensures var ts := AsUntypeds(us, names);
            && AddAll([], ts) == ts && AllReady(ts)
            && forall k: nat :: k < |ts| ==> Judge(ts[..k], ts[k]) == Accepted
  {
    var hi :| Ordered(us, 0, hi);
    OrderedSorted(us, names, 0, hi);
    AllAccepted(AsUntypeds(us, names));
  }

  lemma {:induction false} ChildrenFree(us: seq<Block>, names: nat -> string, objs: seq<Object>, av: seq<Region>,
                                        rs: seq<Region>)
    requires AllReady(AsUntypeds(us, names)) && OnFree(us, av, rs)
    ensures OnFreeMemory(Allocate(objs, AsUntypeds(us, names)).uts, av, rs)
  {
    var ts := AsUntypeds(us, names);
    var uts := Allocate(objs, ts).uts;
    AllocateLayout(objs, ts);
    forall i: nat, k: nat, x: int | i < |uts| && k < |uts[i].ut.children| && InChild(uts[i].ut, k, x)
      ensures InSome(x, av) && !InSome(x, rs)
    {
      assert Ready(uts[i]) && SameUntyped(ts[i].ut, uts[i].ut);
      ChildInside(ts[i].ut, uts[i].ut, k, x);
      assert us[i].paddr <= x < EndOf(us[i]);
    }
  }

  lemma {:induction false} ChildInside(u: Ut, v: Ut, k: nat, x: int)
    requires v.Laid() && SameUntyped(u, v) && k < |v.children| && InChild(v, k, x)
    ensures u.paddr <= x < u.paddr + Pow2(u.sizeBits)
  {
    assert v.ChildPlaced(k);
  }
}
