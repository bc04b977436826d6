/**
 `create_untypeds_for_region`: a region is cut into aligned power-of-two blocks, and the blocks above
 the minimum size become untypeds.
 */
module RegionCut {
  import opened Wrappers
  import opened Arithmetic
  import opened Physical

  /** The largest block that starts at `s`, ends by `e`, is aligned and not above the maximum. */
  function StepBits(s: nat, e: nat, max: nat): nat
    requires s < e
  {
    var size := FloorLog2(e - s);
    var align := if s > 0 then TrailingZeros(s) else size;
    Min(Min(size, align), max)
  }

  /** All blocks the loop passes over. */
  function Steps(s: nat, e: nat, max: nat): seq<Block>
    decreases e - s
  {
    if s >= e then []
    else
      var b := StepBits(s, e, max);
      [Block(s, b)] + Steps(s + Pow2(b), e, max)
  }

  /** The blocks of more than the minimum size. */
  function Emit(bs: seq<Block>, min: nat): seq<Block> {
    if bs == [] then []
    else (if bs[0].bits > min then [bs[0]] else []) + Emit(bs[1..], min)
  }

  function Cut(s: nat, e: nat, max: nat, min: nat): seq<Block> {
    Emit(Steps(s, e, max), min)
  }

  // ----- the blocks tile the region -----

  /** The blocks lie one after the other from `s` to `e`, each aligned to its size. */
  predicate Tiles(bs: seq<Block>, s: nat, e: nat) {
    if bs == [] then s == e
    else bs[0].paddr == s && Aligned(s, bs[0].bits) && Tiles(bs[1..], s + Pow2(bs[0].bits), e)
  }

  predicate NoLarger(bs: seq<Block>, max: nat) {
    forall i :: 0 <= i < |bs| ==> bs[i].bits <= max
  }

  lemma {:induction false} StepFits(s: nat, e: nat, max: nat)
    requires s < e
    ensures var b := StepBits(s, e, max); Aligned(s, b) && s + Pow2(b) <= e && b <= max
  {
    var b := StepBits(s, e, max);
    FloorLog2Exact(e - s);
    Pow2Monotone(b, FloorLog2(e - s));
    if s > 0 { TrailingZerosExact(s, b); } else { ZeroAligned(b); }
  }

  lemma {:induction false} StepsTile(s: nat, e: nat, max: nat)
    requires s <= e
    ensures Tiles(Steps(s, e, max), s, e) && NoLarger(Steps(s, e, max), max)
    decreases e - s
  {
    if s < e {
      var b := StepBits(s, e, max);
      StepFits(s, e, max);
      StepsTile(s + Pow2(b), e, max);
      assert Steps(s, e, max)[1..] == Steps(s + Pow2(b), e, max);
    }
  }

  /** A tiling can be split after any block. */
  lemma {:induction false} TilesSplit(bs: seq<Block>, k: nat, s: nat, e: nat) returns (mid: nat)
    requires k <= |bs| && Tiles(bs, s, e)
    ensures s <= mid <= e && Tiles(bs[..k], s, mid) && Tiles(bs[k..], mid, e)
    decreases |bs|
  {
    TilesOrdered(bs, s, e);
    if k == 0 {
      mid := s;
      assert bs[0..] == bs;
    } else {
      mid := TilesSplit(bs[1..], k - 1, s + Pow2(bs[0].bits), e);
      assert bs[..k][1..] == bs[1..][..k - 1] && bs[1..][k - 1..] == bs[k..];
    }
  }

  lemma {:induction false} TilesOrdered(bs: seq<Block>, s: nat, e: nat)
    requires Tiles(bs, s, e)
    ensures s <= e
    decreases |bs|
  {
    if bs != [] { TilesOrdered(bs[1..], s + Pow2(bs[0].bits), e); }
  }

  // ----- sizes rise, stay at the maximum, then fall -----

  predicate Rising(bs: seq<Block>, lo: nat, max: nat) {
    && (forall i :: 0 <= i < |bs| ==> lo <= bs[i].bits < max)
    && (forall i, j :: 0 <= i < j < |bs| ==> bs[i].bits < bs[j].bits)
  }

  predicate Level(bs: seq<Block>, max: nat) {
    forall i :: 0 <= i < |bs| ==> bs[i].bits == max
  }

  predicate Falling(bs: seq<Block>, max: nat) {
    && (forall i :: 0 <= i < |bs| ==> bs[i].bits < max)
    && (forall i, j :: 0 <= i < j < |bs| ==> bs[i].bits > bs[j].bits)
  }

  /** The block sizes rise strictly, stay at the maximum, then fall strictly. */
  predicate Shaped(bs: seq<Block>, rise: nat, level: nat, max: nat) {
    rise <= level <= |bs| && Rising(bs[..rise], 0, max) && Level(bs[rise..level], max) && Falling(bs[level..], max)
  }

  /** An aligned block of the largest size that fits is taken whole. */
  lemma {:induction false} LargestFits(s: nat, e: nat, max: nat)
    requires s < e && Aligned(s, FloorLog2(e - s)) && FloorLog2(e - s) <= max
    ensures StepBits(s, e, max) == FloorLog2(e - s)
  {
    if s > 0 { TrailingZerosExact(s, FloorLog2(e - s)); }
  }

  lemma {:induction false} LogBelow(x: int, n: nat)
    requires x > 0
    ensures x < Pow2(n) <==> FloorLog2(x) < n
  {
    FloorLog2Exact(x);
    if FloorLog2(x) < n { Pow2Monotone(FloorLog2(x), n); } else { Pow2Monotone(n, FloorLog2(x)); }
  }

  lemma {:induction false} PrependFalling(b: Block, bs: seq<Block>, max: nat)
    requires b.bits < max && Falling(bs, b.bits)
    ensures Falling([b] + bs, max)
  {
  }

  lemma {:induction false} StepsFall(s: nat, e: nat, max: nat, n: nat)
    requires n <= max && (s < e ==> Aligned(s, FloorLog2(e - s)) && FloorLog2(e - s) < n)
    ensures Falling(Steps(s, e, max), n)
    decreases e - s
  {
    if s < e {
      var b := FloorLog2(e - s);
      LargestFits(s, e, max);
      FloorLog2Exact(e - s);
      var s' := s + Pow2(b);
      Pow2Aligned(b, b);
      AlignedAdd(s, Pow2(b), b);
      if s' < e {
        LogBelow(e - s', b);
        AlignedWeaken(s', FloorLog2(e - s'), b);
      }
      StepsFall(s', e, max, b);
      PrependFalling(Block(s, b), Steps(s', e, max), n);
    }
  }

  /** From an address aligned to the maximum: blocks of maximal size, then smaller and smaller ones. */
  lemma {:induction false} StepsLevel(s: nat, e: nat, max: nat) returns (k: nat)
    requires Aligned(s, max)
    ensures k <= |Steps(s, e, max)| && Level(Steps(s, e, max)[..k], max) && Falling(Steps(s, e, max)[k..], max)
    decreases e - s
  {
    k := 0;
    var bs := Steps(s, e, max);
    if s < e {
      LogBelow(e - s, max);
      if FloorLog2(e - s) < max {
        AlignedWeaken(s, FloorLog2(e - s), max);
        StepsFall(s, e, max, max);
        assert bs[0..] == bs;
      } else {
        var s' := FullStep(s, e, max);
        var m := StepsLevel(s', e, max);
        k := m + 1;
        PrependLevel(Block(s, max), Steps(s', e, max), m, max);
      }
    }
  }

  lemma {:induction false} FullStep(s: nat, e: nat, max: nat) returns (s': nat)
    requires Aligned(s, max) && s < e && FloorLog2(e - s) >= max
    ensures s' == s + Pow2(max) && Aligned(s', max) && Steps(s, e, max) == [Block(s, max)] + Steps(s', e, max)
  {
    s' := s + Pow2(max);
    if s > 0 { TrailingZerosExact(s, max); }
    assert StepBits(s, e, max) == max;
    Pow2Aligned(max, max);
    AlignedAdd(s, Pow2(max), max);
  }

  lemma {:induction false} PrependLevel(b: Block, rest: seq<Block>, m: nat, max: nat)
    requires b.bits == max && m <= |rest| && Level(rest[..m], max) && Falling(rest[m..], max)
    ensures Level(([b] + rest)[..m + 1], max) && Falling(([b] + rest)[m + 1..], max)
  {
    assert ([b] + rest)[m + 1..] == rest[m..] && ([b] + rest)[..m + 1] == [b] + rest[..m];
  }

  lemma {:induction false} PrependRising(b: Block, bs: seq<Block>, lo: nat, max: nat)
    requires lo <= b.bits < max && Rising(bs, b.bits + 1, max)
    ensures Rising([b] + bs, lo, max)
  {
  }

  /** Stepping over the lowest set bit clears it. */
  lemma {:induction false} NextAlignment(s: nat)
    requires s > 0
    ensures Aligned(s + Pow2(TrailingZeros(s)), TrailingZeros(s) + 1)
    decreases s
  {
    if s % 2 == 0 {
      NextAlignment(s / 2);
      assert (s + Pow2(TrailingZeros(s))) / 2 == s / 2 + Pow2(TrailingZeros(s / 2));
    }
  }

  lemma {:induction false} StepsShaped(s: nat, e: nat, max: nat, lo: nat) returns (rise: nat, level: nat)
    requires Aligned(s, lo)
    ensures Shaped(Steps(s, e, max), rise, level, max) && Rising(Steps(s, e, max)[..rise], lo, max)
    decreases e - s, 1
  {
    rise, level := 0, 0;
    if s >= e {
      return;
    } else if Aligned(s, max) {
      level := StepsLevel(s, e, max);
    } else if Aligned(s, FloorLog2(e - s)) {
      FallOnly(s, e, max);
    } else {
      rise, level := RiseFirst(s, e, max, lo);
    }
  }

  /** Where the largest block that fits is aligned, sizes only fall. */
  lemma {:induction false} FallOnly(s: nat, e: nat, max: nat)
    requires s < e && !Aligned(s, max) && Aligned(s, FloorLog2(e - s))
    ensures Shaped(Steps(s, e, max), 0, 0, max)
  {
    if FloorLog2(e - s) >= max { AlignedWeaken(s, max, FloorLog2(e - s)); }
    StepsFall(s, e, max, max);
    assert Steps(s, e, max)[0..] == Steps(s, e, max);
  }

  /** Otherwise they rise at first. */
  lemma {:induction false} RiseFirst(s: nat, e: nat, max: nat, lo: nat) returns (rise: nat, level: nat)
    requires s < e && Aligned(s, lo) && !Aligned(s, max) && !Aligned(s, FloorLog2(e - s))
    ensures Shaped(Steps(s, e, max), rise, level, max) && Rising(Steps(s, e, max)[..rise], lo, max)
    decreases e - s, 0
  {
    var b := RisingStep(s, e, max, lo);
    var s' := s + Pow2(b);
    var r, l := StepsShaped(s', e, max, b + 1);
    rise, level := r + 1, l + 1;
    PrependShaped(Block(s, b), Steps(s', e, max), r, l, lo, max);
  }

  /** A step that the alignment limits, and after which the alignment is larger. */
  lemma {:induction false} RisingStep(s: nat, e: nat, max: nat, lo: nat) returns (b: nat)
    requires s < e && Aligned(s, lo) && !Aligned(s, max) && !Aligned(s, FloorLog2(e - s))
    ensures lo <= b < max && Aligned(s + Pow2(b), b + 1)
    ensures Steps(s, e, max) == [Block(s, b)] + Steps(s + Pow2(b), e, max)
  {
    if s == 0 { ZeroAligned(max); }
    b := TrailingZeros(s);
    TrailingZerosExact(s, lo);
    TrailingZerosExact(s, max);
    TrailingZerosExact(s, FloorLog2(e - s));
    NextAlignment(s);
  }

  lemma {:induction false} PrependShaped(b: Block, rest: seq<Block>, r: nat, l: nat, lo: nat, max: nat)
    requires lo <= b.bits < max && Shaped(rest, r, l, max) && Rising(rest[..r], b.bits + 1, max)
    ensures Shaped([b] + rest, r + 1, l + 1, max) && Rising(([b] + rest)[..r + 1], lo, max)
  {
    var bs := [b] + rest;
    PrependRising(b, rest[..r], lo, max);
    PrependRising(b, rest[..r], 0, max);
    assert bs[..r + 1] == [b] + rest[..r] && bs[r + 1..l + 1] == rest[r..l] && bs[l + 1..] == rest[l..];
  }

  // ----- totals and counts -----

  lemma {:induction false} RisingTotal(bs: seq<Block>, s: nat, e: nat, m: nat)
    requires Tiles(bs, s, e) && Rising(bs, 0, m)
    ensures e - s < Pow2(m)
    decreases |bs|
  {
    if bs != [] {
      var n := |bs| - 1;
      var mid := TilesSplit(bs, n, s, e);
      assert bs[n..][1..] == [];
      assert Rising(bs[..n], 0, bs[n].bits);
      RisingTotal(bs[..n], s, mid, bs[n].bits);
      Pow2Monotone(bs[n].bits, m);
    }
  }

  lemma {:induction false} FallingTotal(bs: seq<Block>, s: nat, e: nat, m: nat)
    requires Tiles(bs, s, e) && Falling(bs, m)
    ensures e - s < Pow2(m)
    decreases |bs|
  {
    if bs != [] {
      assert Falling(bs[1..], bs[0].bits);
      FallingTotal(bs[1..], s + Pow2(bs[0].bits), e, bs[0].bits);
      Pow2Monotone(bs[0].bits, m);
    }
  }

  lemma {:induction false} RisingCount(bs: seq<Block>, m: nat)
    requires Rising(bs, 0, m)
    ensures |bs| <= m
    decreases |bs|
  {
    if bs != [] {
      var n := |bs| - 1;
      RisingCount(bs[..n], bs[n].bits);
    }
  }

  lemma {:induction false} FallingCount(bs: seq<Block>, m: nat)
    requires Falling(bs, m)
    ensures |bs| <= m
    decreases |bs|
  {
    if bs != [] { FallingCount(bs[1..], bs[0].bits); }
  }

  lemma {:induction false} LevelTotal(bs: seq<Block>, s: nat, e: nat, m: nat)
    requires Tiles(bs, s, e) && Level(bs, m)
    ensures |bs| * Pow2(m) == e - s
    decreases |bs|
  {
    if bs != [] {
      LevelTotal(bs[1..], s + Pow2(m), e, m);
      MulDiff(|bs|, |bs| - 1, Pow2(m));
    }
  }

  // ----- emission keeps a middle part -----

  lemma {:induction false} EmitAppend(a: seq<Block>, b: seq<Block>, min: nat)
    ensures Emit(a + b, min) == Emit(a, min) + Emit(b, min)
    decreases |a|
  {
    if a == [] {
      assert a + b == b;
    } else {
      assert (a + b)[1..] == a[1..] + b;
      EmitAppend(a[1..], b, min);
    }
  }

  lemma {:induction false} EmitUniform(bs: seq<Block>, min: nat)
    ensures (forall i :: 0 <= i < |bs| ==> bs[i].bits > min) ==> Emit(bs, min) == bs
    ensures (forall i :: 0 <= i < |bs| ==> bs[i].bits <= min) ==> Emit(bs, min) == []
    decreases |bs|
  {
    if bs != [] { EmitUniform(bs[1..], min); }
  }

  /** Where a strictly rising run passes a bound. */
  lemma {:induction false} RisesAbove(bs: seq<Block>, min: nat, max: nat) returns (k: nat)
    requires Rising(bs, 0, max)
    ensures k <= |bs| && Rising(bs[..k], 0, min + 1) && forall i :: k <= i < |bs| ==> bs[i].bits > min
    decreases |bs|
  {
    k := |bs|;
    if bs != [] && bs[|bs| - 1].bits > min {
      var n := |bs| - 1;
      k := RisesAbove(bs[..n], min, max);
      assert bs[..n][..k] == bs[..k];
    }
  }

  lemma {:induction false} FallsBelow(bs: seq<Block>, min: nat, max: nat) returns (k: nat)
    requires Falling(bs, max)
    ensures k <= |bs| && Falling(bs[k..], min + 1) && forall i :: 0 <= i < k ==> bs[i].bits > min
    decreases |bs|
  {
    k := 0;
    if bs != [] && bs[0].bits > min {
      var m := FallsBelow(bs[1..], min, max);
      k := m + 1;
      assert bs[1..][m..] == bs[k..];
    }
  }

  /** What is emitted is a middle part of the steps: what is left out before and after it is small. */
  lemma {:induction false} EmitMiddle(bs: seq<Block>, rise: nat, level: nat, max: nat, min: nat)
    returns (x: nat, y: nat)
    requires Shaped(bs, rise, level, max) && min < max
    ensures x <= rise && level <= y <= |bs|
    ensures Emit(bs, min) == bs[x..y] && Rising(bs[..x], 0, min + 1) && Falling(bs[y..], min + 1)
    ensures forall i :: x <= i < y ==> bs[i].bits > min
  {
    x, y := FindMiddle(bs, rise, level, max, min);
    assert bs == bs[..x] + (bs[x..y] + bs[y..]);
    EmitParts(bs[..x], bs[x..y], bs[y..], min);
  }

  lemma {:induction false} FindMiddle(bs: seq<Block>, rise: nat, level: nat, max: nat, min: nat)
    returns (x: nat, y: nat)
    requires Shaped(bs, rise, level, max) && min < max
    ensures x <= rise && level <= y <= |bs|
    ensures Rising(bs[..x], 0, min + 1) && Falling(bs[y..], min + 1)
    ensures forall i :: x <= i < y ==> bs[i].bits > min
  {
    x := RisesAbove(bs[..rise], min, max);
    var z := FallsBelow(bs[level..], min, max);
    y := level + z;
    assert bs[..rise][..x] == bs[..x] && bs[level..][z..] == bs[y..];
    forall i | x <= i < y ensures bs[i].bits > min {
      if i < rise { assert bs[..rise][i] == bs[i]; }
      else if i < level { assert bs[rise..level][i - rise] == bs[i]; }
      else { assert bs[level..][i - level] == bs[i]; }
    }
  }

  lemma {:induction false} EmitParts(a: seq<Block>, b: seq<Block>, c: seq<Block>, min: nat)
    requires Rising(a, 0, min + 1) && Falling(c, min + 1) && forall i :: 0 <= i < |b| ==> b[i].bits > min
    ensures Emit(a + (b + c), min) == b
  {
    EmitAppend(a, b + c, min);
    EmitAppend(b, c, min);
    EmitUniform(a, min);
    EmitUniform(b, min);
    EmitUniform(c, min);
  }

  lemma {:induction false} MiddleShaped(bs: seq<Block>, rise: nat, level: nat, max: nat, x: nat, y: nat)
    requires Shaped(bs, rise, level, max) && x <= rise && level <= y <= |bs|
    ensures Shaped(bs[x..y], rise - x, level - x, max)
  {
    var us := bs[x..y];
    assert forall i :: 0 <= i < |us| ==> us[i] == bs[x + i];
    assert us[..rise - x] == bs[..rise][x..];
    assert forall i :: 0 <= i < level - rise ==> us[rise - x..level - x][i] == bs[rise..level][i];
    assert us[rise - x..level - x] == bs[rise..level];
    assert us[level - x..] == bs[level..][..y - level];
  }

  lemma {:induction false} ShapedCount(us: seq<Block>, rise: nat, level: nat, max: nat, lo: nat, hi: nat)
    requires Shaped(us, rise, level, max) && Tiles(us, lo, hi)
    ensures lo <= hi && |us| <= 2 * max + (hi - lo) / Pow2(max)
  {
    RisingCount(us[..rise], max);
    FallingCount(us[level..], max);
    var b := TilesSplit(us, level, lo, hi);
    var a := TilesSplit(us[..level], rise, lo, b);
    assert us[..level][rise..] == us[rise..level];
    LevelTotal(us[rise..level], a, b, max);
    QuotientAtLeast(level - rise, hi - lo, Pow2(max));
  }

  lemma {:induction false} QuotientAtLeast(k: nat, x: nat, m: nat)
    requires m > 0 && k * m <= x
    ensures k <= x / m
  {
    if k > x / m {
      MulDiff(k, x / m, m);
      MulAtLeast(k - x / m, m);
    }
  }

  /**
   Region cutting. The untypeds form one gapless run of aligned blocks inside the region, each above the
   minimum and at most the maximum size; fewer than `2^(min+1)` bytes are lost at either end; the sizes rise
   strictly, stay at the maximum, then fall strictly; and there are at most `2 max + len / 2^max` of them.
   */
  lemma {:induction false} CutExact(s: nat, e: nat, max: nat, min: nat)
    returns (lo: nat, hi: nat, rise: nat, level: nat)
    requires s <= e && min < max
    ensures s <= lo <= hi <= e && Tiles(Cut(s, e, max, min), lo, hi)
    ensures lo - s < Pow2(min + 1) && e - hi < Pow2(min + 1)
    ensures forall i :: 0 <= i < |Cut(s, e, max, min)| ==> min < Cut(s, e, max, min)[i].bits <= max
    ensures Shaped(Cut(s, e, max, min), rise, level, max)
    ensures |Cut(s, e, max, min)| <= 2 * max + (e - s) / Pow2(max)
  {
    StepsTile(s, e, max);
    var r, l := StepsShaped(s, e, max, 0);
    lo, hi, rise, level := EmitExact(Steps(s, e, max), s, e, max, min, r, l);
  }

  lemma {:induction false} EmitExact(bs: seq<Block>, s: nat, e: nat, max: nat, min: nat, r: nat, l: nat)
      returns (lo: nat, hi: nat, rise: nat, level: nat)
    requires min < max && Tiles(bs, s, e) && NoLarger(bs, max) && Shaped(bs, r, l, max)
    ensures s <= lo <= hi <= e && Tiles(Emit(bs, min), lo, hi)
    ensures lo - s < Pow2(min + 1) && e - hi < Pow2(min + 1)
    ensures forall i :: 0 <= i < |Emit(bs, min)| ==> min < Emit(bs, min)[i].bits <= max
    ensures Shaped(Emit(bs, min), rise, level, max)
    ensures |Emit(bs, min)| <= 2 * max + (e - s) / Pow2(max)
  {
    var x, y := EmitMiddle(bs, r, l, max, min);
    var us := bs[x..y];
    lo, hi := MiddleTiles(bs, s, e, x, y, min + 1);
    rise, level := r - x, l - x;
    MiddleShaped(bs, r, l, max, x, y);
    MiddleCount(us, rise, level, max, lo, hi, s, e);
    MiddleBits(bs, x, y, min, max);
  }

  lemma {:induction false} MiddleBits(bs: seq<Block>, x: nat, y: nat, min: nat, max: nat)
    requires x <= y <= |bs| && NoLarger(bs, max) && forall i :: x <= i < y ==> bs[i].bits > min
    ensures forall i :: 0 <= i < y - x ==> min < bs[x..y][i].bits <= max
  {
  }

  lemma {:induction false} MiddleCount(us: seq<Block>, rise: nat, level: nat, max: nat, lo: nat, hi: nat, s: nat,
                                       e: nat)
    requires Shaped(us, rise, level, max) && Tiles(us, lo, hi) && s <= lo && hi <= e
    ensures |us| <= 2 * max + (e - s) / Pow2(max)
  {
    ShapedCount(us, rise, level, max, lo, hi);
    QuotientMonotone(hi - lo, e - s, Pow2(max));
  }

  lemma {:induction false} MiddleTiles(bs: seq<Block>, s: nat, e: nat, x: nat, y: nat, m: nat)
    returns (lo: nat, hi: nat)
    requires Tiles(bs, s, e) && x <= y <= |bs| && Rising(bs[..x], 0, m) && Falling(bs[y..], m)
    ensures s <= lo <= hi <= e && Tiles(bs[x..y], lo, hi) && lo - s < Pow2(m) && e - hi < Pow2(m)
  {
    hi := TilesSplit(bs, y, s, e);
    lo := TilesSplit(bs[..y], x, s, hi);
    assert bs[..y][x..] == bs[x..y] && bs[..y][..x] == bs[..x];
    RisingTotal(bs[..x], s, lo, m);
    FallingTotal(bs[y..], hi, e, m);
  }

  lemma {:induction false} QuotientMonotone(x: nat, y: nat, m: nat)
    requires m > 0 && x <= y
    ensures x / m <= y / m
  {
    QuotientAtLeast(x / m, y, m);
  }

  /** If the maximum is not above the minimum, nothing is emitted at all. */
  lemma {:induction false} NothingAboveMinimum(s: nat, e: nat, max: nat, min: nat)
    requires s <= e && max <= min
    ensures Cut(s, e, max, min) == []
  {
    StepsTile(s, e, max);
    EmitUniform(Steps(s, e, max), min);
  }

  // ----- every block is as large as can be -----

  /** No larger block that is aligned, inside the region and not above the maximum begins where the block does. */
  predicate Largest(b: Block, e: nat, max: nat) {
    b.bits <= max && forall k: nat :: b.bits < k <= max && Aligned(b.paddr, k) ==> b.paddr + Pow2(k) > e
  }

  lemma {:induction false} StepLargest(s: nat, e: nat, max: nat)
    requires s < e
    ensures Largest(Block(s, StepBits(s, e, max)), e, max)
  {
    var b := StepBits(s, e, max);
    forall k: nat | b < k <= max && Aligned(s, k) ensures s + Pow2(k) > e {
      if s > 0 { TrailingZerosExact(s, k); }
      LogBelow(e - s, k);
    }
  }

  lemma {:induction false} CutStep(s: nat, e: nat, max: nat, min: nat)
    requires s < e
    ensures var b := StepBits(s, e, max);
            Cut(s, e, max, min) == (if b > min then [Block(s, b)] else []) + Cut(s + Pow2(b), e, max, min)
  {
    var b := StepBits(s, e, max);
    assert Steps(s, e, max)[1..] == Steps(s + Pow2(b), e, max);
  }

  lemma {:induction false} CutLargest(s: nat, e: nat, max: nat, min: nat)
    ensures forall i :: 0 <= i < |Cut(s, e, max, min)| ==>
              Largest(Cut(s, e, max, min)[i], e, max) && min < Cut(s, e, max, min)[i].bits
    decreases e - s
  {
    if s < e {
      StepLargest(s, e, max);
      CutStep(s, e, max, min);
      CutLargest(s + Pow2(StepBits(s, e, max)), e, max, min);
    }
  }

  // ----- the imperative form -----

  method NextSize(start: nat, e: nat, max: nat) returns (sizeBits: nat)
    requires start < e
    ensures sizeBits == StepBits(start, e, max)
  {
    sizeBits := FloorLog2(e - start);
    var alignBits := sizeBits;
    if start > 0 { alignBits := CountTrailingZeros(start); }
    sizeBits := Min(Min(sizeBits, alignBits), max);
  }

  /** The loop; `None` where its assertion that the start is not past the end fails. */
  method CreateUntypedsForRegion(s: nat, e: nat, max: nat, min: nat) returns (r: Option<seq<Block>>)
    ensures r == if s <= e then Some(Cut(s, e, max, min)) else None
  {
    var untyped, start := [], s;
    while start != e
      invariant s <= e ==> start <= e && untyped + Cut(start, e, max, min) == Cut(s, e, max, min)
      invariant s > e ==> start == s
      decreases e - start
    {
      if start > e { return None; }
      var sizeBits := NextSize(start, e, max);
      StepFits(start, e, max);
      CutStep(start, e, max, min);
      if sizeBits > min { untyped := untyped + [Block(start, sizeBits)]; }
      start := start + Pow2(sizeBits);
    }
    assert Cut(e, e, max, min) == [] && untyped + [] == untyped;
    return Some(untyped);
  }
}
