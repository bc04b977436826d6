/**
 The untyped generator as a whole: reserved memory is taken out of the available regions and every free
 region is cut into untypeds.
 */
module UntypedGen {
  import opened Wrappers
  import opened Arithmetic
  import opened Physical
  import opened FreeMemory
  import opened RegionCut

  /** The untypeds of all free regions, in order. */
  function Generate(free: seq<Region>, max: nat, min: nat): seq<Block>
    decreases |free|
  {
    if free == [] then []
    else Generate(free[..|free| - 1], max, min) + Cut(free[|free| - 1].start, free[|free| - 1].end, max, min)
  }

  function EndOf(b: Block): nat { b.paddr + b.Size() }

  /** Aligned blocks in order, no two of which share a byte, all between `lo` and `hi`. */
  predicate Ordered(us: seq<Block>, lo: nat, hi: nat) {
    && (forall i :: 0 <= i < |us| ==> Aligned(us[i].paddr, us[i].bits) && lo <= us[i].paddr && EndOf(us[i]) <= hi)
    && (forall i, j :: 0 <= i < j < |us| ==> EndOf(us[i]) <= us[j].paddr)
  }

  lemma {:induction false} TilesAreOrdered(us: seq<Block>, lo: nat, hi: nat)
    requires Tiles(us, lo, hi)
    ensures lo <= hi && Ordered(us, lo, hi)
    decreases |us|
  {
    if us != [] {
      var rest, next := us[1..], lo + Pow2(us[0].bits);
      TilesAreOrdered(rest, next, hi);
      assert us == [us[0]] + rest;
    }
  }

  lemma {:induction false} CutOrdered(s: nat, e: nat, max: nat, min: nat)
    requires s <= e
    ensures Ordered(Cut(s, e, max, min), s, e)
  {
    if min < max {
      var lo, hi, rise, level := CutExact(s, e, max, min);
      TilesAreOrdered(Cut(s, e, max, min), lo, hi);
    } else {
      NothingAboveMinimum(s, e, max, min);
    }
  }

  predicate Inside(b: Block, r: Region) {
    r.start <= b.paddr && EndOf(b) <= r.end
  }

  ghost predicate InsideSome(b: Block, free: seq<Region>) {
    exists i :: 0 <= i < |free| && Inside(b, free[i])
  }

  lemma {:induction false} GenerateOrdered(free: seq<Region>, max: nat, min: nat)
    requires Disjoint(free)
    ensures var us := Generate(free, max, min);
            && Ordered(us, 0, if free == [] then 0 else free[|free| - 1].end)
            && forall k :: 0 <= k < |us| ==> InsideSome(us[k], free)
    decreases |free|
  {
    if free != [] {
      var n := |free| - 1;
      var before, last := free[..n], free[n];
      GenerateOrdered(before, max, min);
      CutOrdered(last.start, last.end, max, min);
      assert n > 0 ==> free[n - 1].end <= last.start;
      InsideMore(Generate(before, max, min), Cut(last.start, last.end, max, min), free);
    }
  }

  lemma {:induction false} InsideMore(a: seq<Block>, b: seq<Block>, free: seq<Region>)
    requires free != [] && forall k :: 0 <= k < |a| ==> InsideSome(a[k], free[..|free| - 1])
    requires forall k :: 0 <= k < |b| ==> Inside(b[k], free[|free| - 1])
    ensures forall k :: 0 <= k < |a + b| ==> InsideSome((a + b)[k], free)
  {
    var before := free[..|free| - 1];
    forall k | 0 <= k < |a + b| ensures InsideSome((a + b)[k], free) {
      if k < |a| {
        var i :| 0 <= i < |before| && Inside(a[k], before[i]);
        assert Inside(a[k], free[i]);
      } else {
        assert Inside(b[k - |a|], free[|free| - 1]);
      }
    }
  }

  /** Every byte of every block is available and not reserved. */
  ghost predicate OnFree(us: seq<Block>, av: seq<Region>, rs: seq<Region>) {
    forall k, x :: 0 <= k < |us| && us[k].paddr <= x < EndOf(us[k]) ==> InSome(x, av) && !InSome(x, rs)
  }

  /**
   When nothing spills, the generator succeeds, and its untypeds are aligned, pairwise disjoint, and consist
   of available bytes that are not reserved.
   */
  lemma {:induction false} UntypedsAreFree(av: seq<Region>, rs: seq<Region>, max: nat, min: nat)
    requires Disjoint(av) && ByStart(rs) && (rs != [] ==> !Empty(rs[|rs| - 1])) && !Spilling(av, rs)
    ensures FreeMem(av, rs).Some?
    ensures var us := Generate(FreeMem(av, rs).value, max, min);
            (exists hi :: Ordered(us, 0, hi)) && OnFree(us, av, rs)
  {
    SubtractionExact(av, rs);
    var free := FreeMem(av, rs).value;
    GenerateOrdered(free, max, min);
    var us := Generate(free, max, min);
    forall k, x | 0 <= k < |us| && us[k].paddr <= x < EndOf(us[k]) ensures InSome(x, av) && !InSome(x, rs) {
      var i :| 0 <= i < |free| && Inside(us[k], free[i]);
      assert In(x, free[i]);
    }
  }

  // ----- what becomes untyped -----

  predicate InBlock(b: Block, x: int) {
    b.paddr <= x < EndOf(b)
  }

  ghost predicate InSomeBlock(us: seq<Block>, x: int) {
    exists k :: 0 <= k < |us| && InBlock(us[k], x)
  }

  /** All of the region is in blocks but for less than `2^(min+1)` bytes at either end. */
  ghost predicate MostlyUntyped(r: Region, us: seq<Block>, min: nat) {
    exists lo: nat, hi: nat :: LostAtEnds(r, lo, hi, min) && AllInBlocks(us, lo, hi)
  }

  predicate LostAtEnds(r: Region, lo: nat, hi: nat, min: nat) {
    r.start <= lo <= hi <= r.end && lo - r.start < Pow2(min + 1) && r.end - hi < Pow2(min + 1)
  }

  ghost predicate AllInBlocks(us: seq<Block>, lo: nat, hi: nat) {
    forall x: int :: lo <= x < hi ==> InSomeBlock(us, x)
  }

  lemma {:induction false} TilesCover(us: seq<Block>, lo: nat, hi: nat)
    requires Tiles(us, lo, hi)
    ensures AllInBlocks(us, lo, hi)
    decreases |us|
  {
    if us != [] {
      TilesCover(us[1..], lo + Pow2(us[0].bits), hi);
      forall x: int | lo <= x < hi ensures InSomeBlock(us, x) {
        if x < EndOf(us[0]) {
          assert InBlock(us[0], x);
        } else {
          assert InSomeBlock(us[1..], x);
          var k :| 0 <= k < |us[1..]| && InBlock(us[1..][k], x);
          assert InBlock(us[k + 1], x);
        }
      }
    }
  }

  lemma {:induction false} MoreBlocks(a: seq<Block>, b: seq<Block>, x: int)
    ensures InSomeBlock(a, x) || InSomeBlock(b, x) ==> InSomeBlock(a + b, x)
  {
    if k :| 0 <= k < |a| && InBlock(a[k], x) { assert InBlock((a + b)[k], x); }
    if k :| 0 <= k < |b| && InBlock(b[k], x) { assert InBlock((a + b)[|a| + k], x); }
  }

  lemma {:induction false} StaysUntyped(r: Region, a: seq<Block>, b: seq<Block>, min: nat)
    requires MostlyUntyped(r, a, min) || MostlyUntyped(r, b, min)
    ensures MostlyUntyped(r, a + b, min)
  {
    var us := if MostlyUntyped(r, a, min) then a else b;
    var lo: nat, hi: nat :| LostAtEnds(r, lo, hi, min) && AllInBlocks(us, lo, hi);
    forall x: int | lo <= x < hi ensures InSomeBlock(a + b, x) { MoreBlocks(a, b, x); }
    assert AllInBlocks(a + b, lo, hi);
  }

  lemma {:induction false} CutCovers(r: Region, max: nat, min: nat)
    requires r.start <= r.end && min < max
    ensures MostlyUntyped(r, Cut(r.start, r.end, max, min), min)
  {
    var lo, hi, rise, level := CutExact(r.start, r.end, max, min);
    TilesCover(Cut(r.start, r.end, max, min), lo, hi);
    assert LostAtEnds(r, lo, hi, min);
  }

  /** Of every free region all bytes become untyped but for less than `2^(min+1)` at either end. */
  lemma {:induction false} GenerateCovers(free: seq<Region>, max: nat, min: nat)
    requires Disjoint(free) && min < max
    ensures forall i :: 0 <= i < |free| ==> MostlyUntyped(free[i], Generate(free, max, min), min)
    decreases |free|
  {
    if free != [] {
      var n := |free| - 1;
      var a, b := Generate(free[..n], max, min), Cut(free[n].start, free[n].end, max, min);
      GenerateCovers(free[..n], max, min);
      CutCovers(free[n], max, min);
      forall i | 0 <= i < |free| ensures MostlyUntyped(free[i], a + b, min) {
        if i < n { assert free[..n][i] == free[i]; }
        StaysUntyped(free[i], a, b, min);
      }
    }
  }

  /** The block lies in one of the regions, and is as large as can be there. */
  ghost predicate LargestInSome(b: Block, free: seq<Region>, max: nat) {
    exists i :: 0 <= i < |free| && Inside(b, free[i]) && Largest(b, free[i].end, max)
  }

  ghost predicate AllLargest(us: seq<Block>, free: seq<Region>, max: nat, min: nat) {
    forall k :: 0 <= k < |us| ==> min < us[k].bits && LargestInSome(us[k], free, max)
  }

  lemma {:induction false} LargestInMore(us: seq<Block>, free: seq<Region>, n: nat, max: nat, min: nat)
    requires n <= |free| && AllLargest(us, free[..n], max, min)
    ensures AllLargest(us, free, max, min)
  {
    forall k | 0 <= k < |us| ensures min < us[k].bits && LargestInSome(us[k], free, max) {
      assert LargestInSome(us[k], free[..n], max);
      var i :| 0 <= i < n && Inside(us[k], free[..n][i]) && Largest(us[k], free[..n][i].end, max);
      assert free[..n][i] == free[i];
    }
  }

  lemma {:induction false} CutAllLargest(free: seq<Region>, i: nat, max: nat, min: nat)
    requires i < |free| && free[i].start <= free[i].end
    ensures AllLargest(Cut(free[i].start, free[i].end, max, min), free, max, min)
  {
    var us := Cut(free[i].start, free[i].end, max, min);
    CutLargest(free[i].start, free[i].end, max, min);
    CutOrdered(free[i].start, free[i].end, max, min);
    forall k | 0 <= k < |us| ensures LargestInSome(us[k], free, max) {
      assert Inside(us[k], free[i]) && Largest(us[k], free[i].end, max);
    }
  }

  /** Every untyped is larger than the minimum, and no larger one could begin where it does. */
  lemma {:induction false} GenerateLargest(free: seq<Region>, max: nat, min: nat)
    requires Disjoint(free)
    ensures AllLargest(Generate(free, max, min), free, max, min)
    decreases |free|
  {
    if free != [] {
      var n := |free| - 1;
      GenerateLargest(free[..n], max, min);
      LargestInMore(Generate(free[..n], max, min), free, n, max, min);
      CutAllLargest(free, n, max, min);
    }
  }

  /** All addresses less than `2^(min+1)` away from `x` are in the available region, and not reserved. */
  ghost predicate FreeAround(a: Region, rs: seq<Region>, x: nat, min: nat) {
    forall z: int :: x - Pow2(min + 1) < z < x + Pow2(min + 1) ==> In(z, a) && !InSome(z, rs)
  }

  /**
   Every available address becomes part of an untyped unless less than `2^(min+1)` away from it something is reserved or
   the available region ends.
   */
  lemma {:induction false} FreeMemoryUntyped(av: seq<Region>, rs: seq<Region>, max: nat, min: nat, j: nat, x: nat)
    requires Disjoint(av) && NonEmpty(rs) && min < max && j < |av| && FreeAround(av[j], rs, x, min)
    ensures FreeMem(av, rs).Some? && InSomeBlock(Generate(FreeMem(av, rs).value, max, min), x)
  {
    NoIndexError(av, rs);
    FreeMemBetween(av, rs);
    var free, d := FreeMem(av, rs).value, Pow2(min + 1);
    var i := FreeMemWhole(av, rs, j, x - d + 1, x + d - 1);
    GenerateCovers(free, max, min);
    var lo: nat, hi: nat :| LostAtEnds(free[i], lo, hi, min) && AllInBlocks(Generate(free, max, min), lo, hi);
  }

  /** The generator's two steps one after the other. */
  method GenerateUntypeds(av: seq<Region>, rs: seq<Region>, max: nat, min: nat) returns (r: Option<seq<Block>>)
    requires Disjoint(av) && forall i :: 0 <= i < |rs| ==> rs[i].start <= rs[i].end
    ensures r == match FreeMem(av, rs) case None => None case Some(f) => Some(Generate(f, max, min))
  {
    var free := InitFreemem(av, rs);
    if free.None? { return None; }
    FreeMemBetween(av, rs);
    var untypeds := [];
    for i := 0 to |free.value|
      invariant untypeds == Generate(free.value[..i], max, min)
    {
      var f := free.value[i];
      var cut := CreateUntypedsForRegion(f.start, f.end, max, min);
      assert free.value[..i + 1][..i] == free.value[..i];
      untypeds := untypeds + cut.value;
    }
    assert free.value[..|free.value|] == free.value;
    return Some(untypeds);
  }
}
