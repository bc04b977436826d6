/**
 What filling does to the children of an untyped: objects of one size are taken in order, placeholders are
 made only when nothing fits, and no block is left empty that an object still waiting could have taken.
 */
module Filling {
  import opened Wrappers
  import opened Arithmetic
  import opened Untypeds
  import opened BestFit

  function Reversed(s: seq<Object>): (r: seq<Object>) {
    if s == [] then [] else Reversed(s[1..]) + [s[0]]
  }

  lemma {:induction false} ReversedConcat(a: seq<Object>, b: seq<Object>)
    ensures Reversed(a + b) == Reversed(b) + Reversed(a)
    decreases |a|
  {
    if a == [] {
      assert a + b == b;
    } else {
      assert (a + b)[1..] == a[1..] + b;
      ReversedConcat(a[1..], b);
    }
  }

  lemma {:induction false} ReversedAt(s: seq<Object>, i: nat)
    requires i < |s|
    ensures |Reversed(s)| == |s| && Reversed(s)[|s| - 1 - i] == s[i]
    decreases |s|
  {
    if |s| > 1 { ReversedAt(s[1..], if i > 0 then i - 1 else 0); }
  }

  lemma {:induction false} ReversedTwice(s: seq<Object>)
    ensures Reversed(Reversed(s)) == s
  {
    if s != [] {
      ReversedTwice(s[1..]);
      ReversedConcat(Reversed(s[1..]), [s[0]]);
      assert [s[0]][1..] == [];
    }
  }

  // ----- objects of one size -----

  predicate IsOfSize(c: Child, k: nat) {
    c.Allocated? && Fungible(c.obj) && c.obj.sizeBits == k
  }

  /** The fungible objects of one size among the children, in order. */
  function OfSize(cs: seq<Child>, k: nat): seq<Object> {
    if cs == [] then []
    else
      var before := OfSize(cs[..|cs| - 1], k);
      if IsOfSize(cs[|cs| - 1], k) then before + [cs[|cs| - 1].obj] else before
  }

  /** Those that wait, in the order in which they were pushed. */
  function LevelOf(q: Queue, k: nat): seq<Object> {
    if k in q.fun then q.fun[k] else []
  }

  /** The objects of one size as they were pushed: those still waiting, then the placed ones, the last placed first. */
  function Line(q: Queue, cs: seq<Child>, k: nat): seq<Object> {
    LevelOf(q, k) + Reversed(OfSize(cs, k))
  }

  lemma {:induction false} OfSizeAppend(cs: seq<Child>, c: Child, k: nat)
    ensures OfSize(cs + [c], k) == if IsOfSize(c, k) then OfSize(cs, k) + [c.obj] else OfSize(cs, k)
  {
    assert (cs + [c])[..|cs|] == cs;
  }

  // ----- feeding an untyped from the queue -----

  predicate FewerSizes(q: Queue, q': Queue) {
    forall k :: k in q'.fun ==> k in q.fun
  }

  /** Placeholders from child `i` on are smaller than every object waiting. */
  predicate Tight(q: Queue, cs: seq<Child>, i: nat) {
    forall j :: i <= j < |cs| && cs[j].Placeholder? ==> NoneFit(q, cs[j].bits)
  }

  ghost predicate SameLines(q: Queue, cs: seq<Child>, q': Queue, cs': seq<Child>) {
    forall k: nat :: Line(q', cs', k) == Line(q, cs, k)
  }

  predicate NonePinned(cs: seq<Child>, i: nat) {
    forall j :: i <= j < |cs| && cs[j].Allocated? ==> !Pinned(cs[j].obj)
  }

  /** Children have been appended, taken from the queue in order; placeholders only where nothing fits. */
  ghost predicate Fed(q: Queue, u: Ut, q': Queue, u': Ut) {
    && FewerSizes(q, q') && u.children <= u'.children && Tight(q', u'.children, |u.children|)
    && NonePinned(u'.children, |u.children|) && SameLines(q, u.children, q', u'.children)
  }

  lemma {:induction false} FedTwice(q1: Queue, u1: Ut, q2: Queue, u2: Ut, q3: Queue, u3: Ut)
    requires Fed(q1, u1, q2, u2) && Fed(q2, u2, q3, u3)
    ensures Fed(q1, u1, q3, u3)
  {
    forall j | |u1.children| <= j < |u3.children|
      ensures if u3.children[j].Placeholder? then NoneFit(q3, u3.children[j].bits) else !Pinned(u3.children[j].obj)
    {
      if j < |u2.children| { assert u3.children[j] == u2.children[j]; }
    }
  }

  lemma {:induction false} PlaceholderFed(q: Queue, u: Ut, b: nat)
    requires NoneFit(q, b)
    ensures Fed(q, u, q, u.AddPlaceholder(b))
  {
    forall k: nat ensures Line(q, u.AddPlaceholder(b).children, k) == Line(q, u.children, k) {
      OfSizeAppend(u.children, Placeholder(u.WatermarkPaddr(), b), k);
    }
  }

  lemma {:induction false} PopFed(q: Queue, u: Ut, n: nat)
    requires ValidQueue(q) && n in q.fun
    ensures ValidLevel(n, q.fun[n]) && Fed(q, u, PopFun(q, n), u.Add(Allocated(NextFun(q, n))))
  {
    PopKeepsValid(q, n);
    var o, cs := NextFun(q, n), u.children;
    forall k: nat ensures Line(PopFun(q, n), cs + [Allocated(o)], k) == Line(q, cs, k) {
      OfSizeAppend(cs, Allocated(o), k);
      if k == n { PopLine(q.fun[n], OfSize(cs, n)); }
    }
  }

  lemma {:induction false} PopLine(level: seq<Object>, placed: seq<Object>)
    requires level != []
    ensures level[..|level| - 1] + Reversed(placed + [level[|level| - 1]]) == level + Reversed(placed)
  {
    var o := level[|level| - 1];
    ReversedConcat(placed, [o]);
    assert [o][1..] == [];
    assert Reversed([o]) == [o];
    assert level == level[..|level| - 1] + [o];
  }

  lemma {:induction false} FillFed(q: Queue, u: Ut, n: nat)
    requires ValidQueue(q)
    ensures Fed(q, u, Fill(q, u, n).q, Fill(q, u, n).u)
    decreases n
  {
    if NoneFit(q, n) {
    } else if n in q.fun {
      PopFed(q, u, n);
    } else {
      FitsBelow(q, n);
      FillFed(q, u, n - 1);
      var first := Fill(q, u, n - 1);
      FillFed(first.q, first.u, n - 1);
      var second := Fill(first.q, first.u, n - 1);
      FedTwice(q, u, first.q, first.u, second.q, second.u);
      FillConservesWork(q, u, n - 1);
      FillConservesWork(first.q, first.u, n - 1);
      JoinFed(q, u, n, first, second);
    }
  }

  lemma {:induction false} JoinFed(q: Queue, u: Ut, n: nat, first: Filled, second: Filled)
    requires n > 1 && first.left == 0 && Conserved(first.q, first.u, n - 1, second)
    requires Fed(q, u, second.q, second.u)
    ensures Fed(q, u, Join(n, first, second).q, Join(n, first, second).u)
  {
    if second.left != first.left {
      PlaceholderFed(second.q, second.u, n - 1);
      FedTwice(q, u, second.q, second.u, second.q, second.u.AddPlaceholder(n - 1));
    }
  }

  lemma {:induction false} UseBlockFed(q: Queue, u: Ut, k: nat)
    requires ValidQueue(q)
    ensures Fed(q, u, UseBlock(q, u, k, false).q, UseBlock(q, u, k, false).u)
  {
    FillFed(q, u, k);
    FillConservesWork(q, u, k);
    var f := Fill(q, u, k);
    if NoneFit(q, k) {
      PlaceholderFed(q, u, k);
    } else {
      PositiveBits(q, k);
    }
  }

  lemma {:induction false} UseFed(q: Queue, u: Ut, bytes: nat)
    requires ValidQueue(q) && u.Laid() && bytes <= u.Remaining()
    ensures Fed(q, u, UseUntyped(q, u, bytes, false).q, UseUntyped(q, u, bytes, false).u)
    decreases bytes
  {
    if bytes > 0 {
      var r, left := UseRoundStep(q, u, bytes, false);
      UseBlockFed(q, u, BlockBits(u, bytes));
      UseFed(r.q, r.u, left);
      var t := UseUntyped(r.q, r.u, left, false);
      FedTwice(q, u, r.q, r.u, t.q, t.u);
    }
  }

  /** A device untyped receives placeholders only. */
  lemma {:induction false} UseDevice(q: Queue, u: Ut, bytes: nat)
    requires ValidQueue(q) && u.Laid() && bytes <= u.Remaining()
    ensures var r := UseUntyped(q, u, bytes, true);
            r.q == q && u.children <= r.u.children && SameLines(q, u.children, q, r.u.children)
    decreases bytes
  {
    if bytes > 0 {
      var r, left := UseRoundStep(q, u, bytes, true);
      forall k: nat ensures Line(q, r.u.children, k) == Line(q, u.children, k) {
        OfSizeAppend(u.children, Placeholder(u.WatermarkPaddr(), BlockBits(u, bytes)), k);
      }
      UseDevice(r.q, r.u, left);
    }
  }

  // ----- gaps without objects -----

  /** Child `i` is a placeholder, as large as its address and the end of the gap are aligned. */
  predicate GapBlock(u: Ut, i: nat, end: nat)
    requires i < |u.children|
  {
    u.children[i].Placeholder? && u.ChildAddr(i) < end && LargestCommon(u.ChildAddr(i), end, u.children[i].bits)
  }

  predicate LargestCommon(a: nat, b: nat, k: nat) {
    Aligned(a, k) && Aligned(b, k) && !(Aligned(a, k + 1) && Aligned(b, k + 1))
  }

  /** The blocks used are as large as both ends of the gap are aligned. */
  lemma {:induction false} BlockBitsLargest(u: Ut, bytes: nat, k: nat)
    requires bytes > 0
    ensures Aligned(u.WatermarkPaddr(), k) && Aligned(bytes, k) <==> k <= BlockBits(u, bytes)
  {
    TrailingZerosExact(bytes, k);
    if u.WatermarkPaddr() != 0 { TrailingZerosExact(u.WatermarkPaddr(), k); } else { ZeroAligned(k); }
  }

  lemma {:induction false} BlockBitsCommon(u: Ut, bytes: nat)
    requires bytes > 0
    ensures LargestCommon(u.WatermarkPaddr(), u.WatermarkPaddr() + bytes, BlockBits(u, bytes))
  {
    var n, w := BlockBits(u, bytes), u.WatermarkPaddr();
    BlockBitsLargest(u, bytes, n);
    BlockBitsLargest(u, bytes, n + 1);
    AlignedAdd(w, bytes, n);
    if Aligned(w, n + 1) && Aligned(w + bytes, n + 1) { AlignedAdd(w + bytes, w, n + 1); }
  }

  /** One round: a placeholder, and the rest of the gap. */
  lemma {:induction false} PlaceholderRound(q: Queue, u: Ut, bytes: nat, device: bool) returns (v: Ut, left: nat)
    requires ValidQueue(q) && u.Laid() && 0 < bytes <= u.Remaining() && (device || q.fun == map[])
    ensures v == u.AddPlaceholder(BlockBits(u, bytes)) && v.Laid() && left < bytes && left <= v.Remaining()
    ensures v.WatermarkPaddr() + left == u.WatermarkPaddr() + bytes
    ensures UseUntyped(q, u, bytes, device) == UseUntyped(q, v, left, device)
  {
    var r;
    r, left := UseRoundStep(q, u, bytes, device);
    UseBlockSound(q, u, BlockBits(u, bytes), device);
    v := r.u;
  }

  /** The children from `i` on are blocks of a gap that ends at `end`. */
  predicate GapFrom(u: Ut, i: nat, end: nat) {
    forall j :: i <= j < |u.children| ==> GapBlock(u, j, end)
  }

  /** Device memory, and any memory when nothing is waiting, is used in placeholders of the largest common alignment. */
  lemma {:induction false} GapBlocks(q: Queue, u: Ut, bytes: nat, device: bool)
    requires ValidQueue(q) && u.Laid() && bytes <= u.Remaining() && (device || q.fun == map[])
    ensures var v := UseUntyped(q, u, bytes, device).u;
            u.children <= v.children && GapFrom(v, |u.children|, u.WatermarkPaddr() + bytes)
    decreases bytes
  {
    if bytes > 0 {
      var v, left := PlaceholderRound(q, u, bytes, device);
      GapBlocks(q, v, left, device);
      BlockBitsCommon(u, bytes);
      FirstBlock(u, UseUntyped(q, v, left, device).u, BlockBits(u, bytes), u.WatermarkPaddr() + bytes);
    }
  }

  lemma {:induction false} FirstBlock(u: Ut, v: Ut, n: nat, end: nat)
    requires u.Laid() && v.paddr == u.paddr && u.WatermarkPaddr() < end
    requires u.AddPlaceholder(n).children <= v.children && GapFrom(v, |u.children| + 1, end)
    requires LargestCommon(u.WatermarkPaddr(), end, n)
    ensures u.children <= v.children && GapFrom(v, |u.children|, end)
  {
    assert v.children[..|u.children|] == u.children;
    assert v.children[|u.children|] == Placeholder(u.WatermarkPaddr(), n);
    assert v.ChildAddr(|u.children|) == u.WatermarkPaddr();
    assert GapBlock(v, |u.children|, end);
  }

  // ----- no block is left empty that an object waiting could have taken -----

  /** A child that is an object lies in the block of `2^k` bytes at `a`, or reaches into it. */
  ghost predicate Occupied(u: Ut, a: nat, k: nat) {
    exists i: nat :: OccupiedBy(u, a, k, i)
  }

  predicate OccupiedBy(u: Ut, a: nat, k: nat, i: nat) {
    && i < |u.children| && u.children[i].Allocated?
    && u.ChildAddr(i) < a + Pow2(k) && a < u.ChildAddr(i) + ChildSize(u.children[i])
  }

  lemma {:induction false} SameAddr(u: Ut, v: Ut, i: nat)
    requires u.paddr == v.paddr && u.children <= v.children && i <= |u.children|
    ensures v.ChildAddr(i) == u.ChildAddr(i)
  {
    assert v.children[..i] == u.children[..i];
  }

  lemma {:induction false} StaysOccupied(u: Ut, v: Ut, a: nat, k: nat)
    requires u.paddr == v.paddr && u.children <= v.children && Occupied(u, a, k)
    ensures Occupied(v, a, k)
  {
    var i: nat :| OccupiedBy(u, a, k, i);
    SameAddr(u, v, i);
    assert OccupiedBy(v, a, k, i);
  }

  /** The blocks of `2^k` bytes from `lo` to `hi` are all occupied. */
  ghost predicate AllOccupied(u: Ut, lo: nat, hi: nat, k: nat) {
    forall a: nat :: lo <= a && a + Pow2(k) <= hi && Aligned(a, k) ==> Occupied(u, a, k)
  }

  lemma {:induction false} StayOccupied(u: Ut, v: Ut, lo: nat, hi: nat, k: nat)
    requires u.paddr == v.paddr && u.children <= v.children && AllOccupied(u, lo, hi, k)
    ensures AllOccupied(v, lo, hi, k)
  {
    forall a: nat | lo <= a && a + Pow2(k) <= hi && Aligned(a, k) ensures Occupied(v, a, k) {
      StaysOccupied(u, v, a, k);
    }
  }

  /** Aligned blocks lie on one side of an aligned address. */
  lemma {:induction false} OccupiedBoth(u: Ut, lo: nat, mid: nat, hi: nat, k: nat)
    requires AllOccupied(u, lo, mid, k) && AllOccupied(u, mid, hi, k) && Aligned(mid, k)
    ensures AllOccupied(u, lo, hi, k)
  {
    forall a: nat | lo <= a && a + Pow2(k) <= hi && Aligned(a, k) ensures Occupied(u, a, k) {
      if a < mid { AlignedGap(a, mid, k); }
    }
  }

  lemma {:induction false} WholeOccupied(u: Ut, o: Object, k: nat)
    requires u.Laid() && k <= o.sizeBits
    ensures var v := u.Add(Allocated(o));
            AllOccupied(v, u.WatermarkPaddr(), u.WatermarkPaddr() + Pow2(o.sizeBits), k)
  {
    var v := u.Add(Allocated(o));
    assert v.children[..|u.children|] == u.children;
    assert v.ChildAddr(|u.children|) == u.WatermarkPaddr();
    forall a: nat | u.WatermarkPaddr() <= a && a + Pow2(k) <= u.WatermarkPaddr() + Pow2(o.sizeBits) && Aligned(a, k)
      ensures Occupied(v, a, k)
    {
      assert OccupiedBy(v, a, k, |u.children|);
    }
  }

  /** While an object of `2^k` bytes is waiting, filling a larger block leaves no room for it. */
  lemma {:induction false} FillOccupies(q: Queue, u: Ut, n: nat, k: nat)
    requires ValidQueue(q) && u.Laid() && Aligned(u.WatermarkPaddr(), n) && Pow2(n) <= u.Remaining()
    requires k <= n && k in Fill(q, u, n).q.fun
    ensures AllOccupied(Fill(q, u, n).u, u.WatermarkPaddr(), u.WatermarkPaddr() + Pow2(n), k)
    decreases n, 2
  {
    FillFed(q, u, n);
    assert k in q.fun && !NoneFit(q, n);
    if n in q.fun {
      PopKeepsValid(q, n);
      WholeOccupied(u, NextFun(q, n), k);
    } else {
      HalvesOccupied(q, u, n, k);
    }
  }

  lemma {:induction false} HalvesOccupied(q: Queue, u: Ut, n: nat, k: nat)
    requires ValidQueue(q) && u.Laid() && Aligned(u.WatermarkPaddr(), n) && Pow2(n) <= u.Remaining()
    requires !NoneFit(q, n) && n !in q.fun && k < n && k in Fill(q, u, n).q.fun
    ensures AllOccupied(Fill(q, u, n).u, u.WatermarkPaddr(), u.WatermarkPaddr() + Pow2(n), k)
    decreases n, 1
  {
    var first, second := HalvesKeep(q, u, n, k);
    FirstOccupied(q, u, n, k, first, second);
    SecondOccupied(q, u, n, k, first, second);
    HalvesJoined(u, first.u, second.u, n, k);
  }

  lemma {:induction false} FirstOccupied(q: Queue, u: Ut, n: nat, k: nat, first: Filled, second: Filled)
    requires Halved(q, u, n, k, first, second) && first == Fill(q, u, n - 1) && k < n
    ensures AllOccupied(first.u, u.WatermarkPaddr(), first.u.WatermarkPaddr(), k)
    decreases n, 0
  {
    FillOccupies(q, u, n - 1, k);
  }

  lemma {:induction false} SecondOccupied(q: Queue, u: Ut, n: nat, k: nat, first: Filled, second: Filled)
    requires Halved(q, u, n, k, first, second) && second == Fill(first.q, first.u, n - 1) && k < n
    ensures AllOccupied(second.u, first.u.WatermarkPaddr(), first.u.WatermarkPaddr() + Pow2(n - 1), k)
    decreases n, 0
  {
    FillOccupies(first.q, first.u, n - 1, k);
  }

  /** The two halves of a block, an object of `2^k` bytes waiting all the time. */
  ghost predicate Halved(q: Queue, u: Ut, n: nat, k: nat, first: Filled, second: Filled) {
    && n > 0 && k in first.q.fun && k in second.q.fun
    && ValidQueue(q) && ValidQueue(first.q) && u.Laid() && first.u.Laid()
    && Aligned(u.WatermarkPaddr(), n - 1) && Pow2(n - 1) <= u.Remaining()
    && Aligned(first.u.WatermarkPaddr(), n - 1) && Pow2(n - 1) <= first.u.Remaining()
    && first.u.WatermarkPaddr() == u.WatermarkPaddr() + Pow2(n - 1)
    && first.u.paddr == second.u.paddr && first.u.children <= second.u.children
  }

  /** An object that waits after both halves has been waiting all the time, so that both are filled. */
  lemma {:induction false} HalvesKeep(q: Queue, u: Ut, n: nat, k: nat) returns (first: Filled, second: Filled)
    requires ValidQueue(q) && u.Laid() && Aligned(u.WatermarkPaddr(), n) && Pow2(n) <= u.Remaining()
    requires !NoneFit(q, n) && n !in q.fun && k < n && k in Fill(q, u, n).q.fun
    ensures Halved(q, u, n, k, first, second)
    ensures first == Fill(q, u, n - 1) && second == Fill(first.q, first.u, n - 1) && Fill(q, u, n) == second
  {
    HalvesFit(q, u, n);
    first := Fill(q, u, n - 1);
    second := Fill(first.q, first.u, n - 1);
    HalfKeeps(q, u, n - 1, k, n, second);
    FillFed(q, u, n - 1);
    FillConservesWork(q, u, n - 1);
    FillKeepsLaid(q, u, n - 1);
    FillKeepsLaid(first.q, first.u, n - 1);
  }

  lemma {:induction false} HalfKeeps(q: Queue, u: Ut, m: nat, k: nat, n: nat, second: Filled)
    requires ValidQueue(q) && n == m + 1 && k <= m
    requires second == Fill(Fill(q, u, m).q, Fill(q, u, m).u, m) && k in Join(n, Fill(q, u, m), second).q.fun
    ensures k in second.q.fun && k in Fill(q, u, m).q.fun && k in q.fun && Join(n, Fill(q, u, m), second) == second
    ensures Fill(q, u, m).u.children <= second.u.children && !NoneFit(q, m)
  {
    var first := Fill(q, u, m);
    FillFed(q, u, m);
    FillFed(first.q, first.u, m);
    FillConservesWork(q, u, m);
    FillConservesWork(first.q, first.u, m);
    assert k in second.q.fun && k in first.q.fun && k in q.fun;
  }

  lemma {:induction false} HalvesJoined(u: Ut, v: Ut, t: Ut, n: nat, k: nat)
    requires k < n && Aligned(v.WatermarkPaddr(), n - 1) && v.WatermarkPaddr() == u.WatermarkPaddr() + Pow2(n - 1)
    requires v.paddr == t.paddr && v.children <= t.children
    requires AllOccupied(v, u.WatermarkPaddr(), v.WatermarkPaddr(), k)
    requires AllOccupied(t, v.WatermarkPaddr(), v.WatermarkPaddr() + Pow2(n - 1), k)
    ensures AllOccupied(t, u.WatermarkPaddr(), u.WatermarkPaddr() + Pow2(n), k)
  {
    BlockThenRest(v, t, u.WatermarkPaddr(), v.WatermarkPaddr() + Pow2(n - 1), n - 1, k);
  }

  lemma {:induction false} UseBlockOccupies(q: Queue, u: Ut, n: nat, k: nat)
    requires ValidQueue(q) && u.Laid() && Aligned(u.WatermarkPaddr(), n) && Pow2(n) <= u.Remaining()
    requires k <= n && k in UseBlock(q, u, n, false).q.fun
    ensures AllOccupied(UseBlock(q, u, n, false).u, u.WatermarkPaddr(), u.WatermarkPaddr() + Pow2(n), k)
  {
    FillOccupies(q, u, n, k);
    FillFed(q, u, n);
    FillConservesWork(q, u, n);
    PositiveBits(q, n);
  }

  /** A gap that ends at a multiple of `2^k` has no room left for an object of that size that is waiting afterwards. */
  lemma {:induction false} UseOccupies(q: Queue, u: Ut, bytes: nat, k: nat)
    requires ValidQueue(q) && u.Laid() && bytes <= u.Remaining() && Aligned(u.WatermarkPaddr() + bytes, k)
    requires k in UseUntyped(q, u, bytes, false).q.fun
    ensures AllOccupied(UseUntyped(q, u, bytes, false).u, u.WatermarkPaddr(), u.WatermarkPaddr() + bytes, k)
    decreases bytes
  {
    if bytes > 0 {
      var r, left := UseRoundStep(q, u, bytes, false);
      UseBlockSound(q, u, BlockBits(u, bytes), false);
      UseOccupies(r.q, r.u, left, k);
      UseFed(r.q, r.u, left);
      var t := UseUntyped(r.q, r.u, left, false);
      RoundOccupies(q, u, bytes, k, r, t.u);
    }
  }

  /** The first block used, and the rest of the gap. */
  lemma {:induction false} RoundOccupies(q: Queue, u: Ut, bytes: nat, k: nat, r: Used, t: Ut)
    requires ValidQueue(q) && u.Laid() && 0 < bytes <= u.Remaining() && Aligned(u.WatermarkPaddr() + bytes, k)
    requires r == UseBlock(q, u, BlockBits(u, bytes), false) && k in r.q.fun
    requires r.u.WatermarkPaddr() == u.WatermarkPaddr() + Pow2(BlockBits(u, bytes))
    requires r.u.paddr == t.paddr && r.u.children <= t.children
    requires AllOccupied(t, r.u.WatermarkPaddr(), u.WatermarkPaddr() + bytes, k)
    ensures AllOccupied(t, u.WatermarkPaddr(), u.WatermarkPaddr() + bytes, k)
  {
    var n := BlockBits(u, bytes);
    BlockBitsFit(u, bytes);
    if k <= n {
      UseBlockOccupies(q, u, n, k);
      Pow2Aligned(n, n);
      AlignedAdd(u.WatermarkPaddr(), Pow2(n), n);
      BlockThenRest(r.u, t, u.WatermarkPaddr(), u.WatermarkPaddr() + bytes, n, k);
    } else {
      RestOnly(u, t, bytes, k, r.u.WatermarkPaddr());
    }
  }

  lemma {:induction false} BlockThenRest(v: Ut, t: Ut, lo: nat, hi: nat, n: nat, k: nat)
    requires k <= n && Aligned(v.WatermarkPaddr(), n) && v.paddr == t.paddr && v.children <= t.children
    requires AllOccupied(v, lo, v.WatermarkPaddr(), k) && AllOccupied(t, v.WatermarkPaddr(), hi, k)
    ensures AllOccupied(t, lo, hi, k)
  {
    StayOccupied(v, t, lo, v.WatermarkPaddr(), k);
    AlignedWeaken(v.WatermarkPaddr(), k, n);
    OccupiedBoth(t, lo, v.WatermarkPaddr(), hi, k);
  }

  lemma {:induction false} RestOnly(u: Ut, t: Ut, bytes: nat, k: nat, mid: nat)
    requires bytes > 0 && k > BlockBits(u, bytes) && Aligned(u.WatermarkPaddr() + bytes, k)
    requires mid == u.WatermarkPaddr() + Pow2(BlockBits(u, bytes))
    requires AllOccupied(t, mid, u.WatermarkPaddr() + bytes, k)
    ensures AllOccupied(t, u.WatermarkPaddr(), u.WatermarkPaddr() + bytes, k)
  {
    forall a: nat | u.WatermarkPaddr() <= a && a + Pow2(k) <= u.WatermarkPaddr() + bytes && Aligned(a, k)
      ensures Occupied(t, a, k)
    {
      BeyondBlock(u, bytes, k, a);
    }
  }

  /** A larger block that lies in the gap does not begin in the first one used. */
  lemma {:induction false} BeyondBlock(u: Ut, bytes: nat, k: nat, a: nat)
    requires bytes > 0 && k > BlockBits(u, bytes) && Aligned(u.WatermarkPaddr() + bytes, k)
    requires u.WatermarkPaddr() <= a && Aligned(a, k)
    ensures u.WatermarkPaddr() + Pow2(BlockBits(u, bytes)) <= a
  {
    var w, n := u.WatermarkPaddr(), BlockBits(u, bytes);
    BlockBitsFit(u, bytes);
    BlockBitsLargest(u, bytes, k);
    if Aligned(w, k) { AlignedAdd(w + bytes, w, k); }
    assert a != w;
    AlignedWeaken(a, n, k);
    AlignedGap(w, a, n);
  }

  predicate SameLevel(q: Queue, q': Queue, k: nat) {
    (k in q'.fun <==> k in q.fun) && (k in q.fun ==> q'.fun[k] == q.fun[k])
  }

  /** An object larger than the end of the gap is aligned is never placed in it. */
  lemma {:induction false} UseLeavesLarge(q: Queue, u: Ut, bytes: nat, k: nat)
    requires ValidQueue(q) && u.Laid() && bytes <= u.Remaining() && !Aligned(u.WatermarkPaddr() + bytes, k)
    ensures SameLevel(q, UseUntyped(q, u, bytes, false).q, k)
    decreases bytes
  {
    if bytes > 0 {
      var r, left := RoundTo(q, u, bytes);
      BlockLeavesLarge(q, u, bytes, k);
      UseLeavesLarge(r.q, r.u, left, k);
    }
  }

  /** One round towards the end of the gap. */
  lemma {:induction false} RoundTo(q: Queue, u: Ut, bytes: nat) returns (r: Used, left: nat)
    requires ValidQueue(q) && u.Laid() && 0 < bytes <= u.Remaining()
    ensures r == UseBlock(q, u, BlockBits(u, bytes), false) && left < bytes
    ensures ValidQueue(r.q) && r.u.Laid() && left <= r.u.Remaining()
    ensures r.u.WatermarkPaddr() + left == u.WatermarkPaddr() + bytes
    ensures UseUntyped(q, u, bytes, false) == UseUntyped(r.q, r.u, left, false)
  {
    r, left := UseRoundStep(q, u, bytes, false);
    UseBlockSound(q, u, BlockBits(u, bytes), false);
  }

  lemma {:induction false} BlockLeavesLarge(q: Queue, u: Ut, bytes: nat, k: nat)
    requires ValidQueue(q) && bytes > 0 && !Aligned(u.WatermarkPaddr() + bytes, k)
    ensures SameLevel(q, UseBlock(q, u, BlockBits(u, bytes), false).q, k)
  {
    var n := BlockBits(u, bytes);
    BlockBitsFit(u, bytes);
    AlignedAdd(u.WatermarkPaddr(), bytes, n);
    if k <= n { AlignedWeaken(u.WatermarkPaddr() + bytes, k, n); }
    FillFrame(q, u, n);
  }
}
