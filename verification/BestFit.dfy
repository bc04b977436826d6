/**
 The best-fit allocation algorithm on values: the work queue, the recursive filler, the loop that
 advances an untyped by a number of bytes, and the two phases of `allocate`.
 */
module BestFit {
  import opened Wrappers
  import opened Arithmetic
  import opened Untypeds

  // ----- the work queue -----

  /** Fungible objects by size (taken from the right end), pinned objects by ascending address. */
  datatype Queue = Queue(fun: map<nat, seq<Object>>, unfun: seq<Object>)

  predicate AllPinned(s: seq<Object>) {
    forall i :: 0 <= i < |s| ==> Pinned(s[i])
  }

  predicate SortedPinned(s: seq<Object>) {
    && AllPinned(s)
    && forall i, j :: 0 <= i < j < |s| ==> s[i].paddr.value < s[j].paddr.value
  }

  predicate ValidLevel(k: nat, s: seq<Object>) {
    k > 0 && s != [] && forall o | o in s :: Fungible(o) && o.sizeBits == k
  }

  predicate ValidQueue(q: Queue) {
    && (forall k | k in q.fun :: ValidLevel(k, q.fun[k]))
    && SortedPinned(q.unfun)
  }

  const EMPTY_QUEUE := Queue(map[], [])

  function PushFun(q: Queue, o: Object): Queue {
    var k := o.sizeBits;
    q.(fun := q.fun[k := if k in q.fun then q.fun[k] + [o] else [o]])
  }

  function PopFun(q: Queue, k: nat): Queue
    requires k in q.fun && q.fun[k] != []
  {
    var left := q.fun[k][..|q.fun[k]| - 1];
    q.(fun := if left == [] then q.fun - {k} else q.fun[k := left])
  }

  function NextFun(q: Queue, k: nat): Object
    requires k in q.fun && q.fun[k] != []
  {
    q.fun[k][|q.fun[k]| - 1]
  }

  /** Where a pinned object goes in the address order. */
  function PinnedIndex(s: seq<Object>, paddr: nat): (i: nat)
    requires AllPinned(s)
    ensures i <= |s|
    ensures forall j :: 0 <= j < i ==> s[j].paddr.value < paddr
    ensures i < |s| ==> paddr <= s[i].paddr.value
  {
    if s == [] || paddr <= s[0].paddr.value then 0
    else 1 + PinnedIndex(s[1..], paddr)
  }

  function PushUnfun(q: Queue, o: Object): Option<Queue>
    requires SortedPinned(q.unfun) && Pinned(o)
  {
    var i := PinnedIndex(q.unfun, o.paddr.value);
    if i < |q.unfun| && q.unfun[i].paddr == o.paddr then None
    else Some(q.(unfun := q.unfun[..i] + [o] + q.unfun[i..]))
  }

  /** One step of building the queue: pinned, fungible, or of no interest. `None` is a duplicate address. */
  function Push(q: Queue, o: Object): Option<Queue>
    requires ValidQueue(q)
  {
    if Pinned(o) then PushUnfun(q, o)
    else if o.sizeBits > 0 then Some(PushFun(q, o))
    else Some(q)
  }

  lemma {:induction false} PushKeepsValid(q: Queue, o: Object)
    requires ValidQueue(q)
    ensures Push(q, o).Some? ==> ValidQueue(Push(q, o).value)
  {
    if Pinned(o) {
      PushUnfunKeepsValid(q, o);
    } else if o.sizeBits > 0 {
      PushFunKeepsValid(q, o);
    }
  }

  lemma {:induction false} PushUnfunKeepsValid(q: Queue, o: Object)
    requires ValidQueue(q) && Pinned(o)
    ensures PushUnfun(q, o).Some? ==> ValidQueue(PushUnfun(q, o).value)
  {
    if PushUnfun(q, o).Some? {
      var i := PinnedIndex(q.unfun, o.paddr.value);
      assert PushUnfun(q, o).value.unfun == q.unfun[..i] + [o] + q.unfun[i..];
    }
  }

  lemma {:induction false} PushFunKeepsValid(q: Queue, o: Object)
    requires ValidQueue(q) && Fungible(o) && o.sizeBits > 0
    ensures ValidQueue(PushFun(q, o))
  {
    var r := PushFun(q, o);
    forall k | k in r.fun ensures ValidLevel(k, r.fun[k]) {
      assert k != o.sizeBits ==> k in q.fun && r.fun[k] == q.fun[k];
    }
  }

  /** The queue built from a list of objects. */
  function Build(q: Queue, objs: seq<Object>): Option<Queue>
    requires ValidQueue(q)
    decreases |objs|
  {
    if objs == [] then Some(q)
    else
      PushKeepsValid(q, objs[0]);
      match Push(q, objs[0])
      case None => None
      case Some(q') => Build(q', objs[1..])
  }

  /** How often an object waits in the queue. */
  function Waiting(q: Queue, o: Object): nat {
    (if o.sizeBits in q.fun then multiset(q.fun[o.sizeBits])[o] else 0) + multiset(q.unfun)[o]
  }

  predicate Sized(o: Object) { Pinned(o) || o.sizeBits > 0 }

  lemma {:induction false} PushCounts(q: Queue, x: Object, o: Object)
    requires ValidQueue(q) && Push(q, x).Some?
    ensures Waiting(Push(q, x).value, o) == Waiting(q, o) + if x == o && Sized(o) then 1 else 0
  {
    if Pinned(x) {
      var i := PinnedIndex(q.unfun, x.paddr.value);
      assert q.unfun == q.unfun[..i] + q.unfun[i..];
    }
  }

  lemma {:induction false} CountFirst(objs: seq<Object>, o: Object)
    requires objs != []
    ensures multiset(objs)[o] == (if objs[0] == o then 1 else 0) + multiset(objs[1..])[o]
  {
    assert objs == [objs[0]] + objs[1..];
  }

  lemma {:induction false} BuildCounts(q: Queue, objs: seq<Object>, o: Object)
    requires ValidQueue(q) && Build(q, objs).Some?
    ensures ValidQueue(Build(q, objs).value)
    ensures Waiting(Build(q, objs).value, o) == Waiting(q, o) + if Sized(o) then multiset(objs)[o] else 0
    decreases |objs|
  {
    if objs != [] {
      PushKeepsValid(q, objs[0]);
      PushCounts(q, objs[0], o);
      BuildCounts(Push(q, objs[0]).value, objs[1..], o);
      CountFirst(objs, o);
    }
  }

  // ----- bytes waiting in the queue -----

  predicate NoneFit(q: Queue, n: nat) {
    forall k | k in q.fun :: k > n
  }

  /** The bytes of so many objects of `2^k` bytes each. */
  function Times(count: nat, k: nat): nat {
    if count == 0 then 0 else Times(count - 1, k) + Pow2(k)
  }

  function LevelBytes(q: Queue, k: nat): nat {
    if k in q.fun then Times(|q.fun[k]|, k) else 0
  }

  /** Total bytes of the queued fungible objects of at most `2^n` bytes each. */
  function Bytes(q: Queue, n: nat): nat {
    LevelBytes(q, n) + if n == 0 then 0 else Bytes(q, n - 1)
  }

  lemma {:induction false} BytesZero(q: Queue, n: nat)
    requires ValidQueue(q)
    ensures Bytes(q, n) == 0 <==> NoneFit(q, n)
    ensures !NoneFit(q, n) ==> Bytes(q, n) > 0
  {
    if n in q.fun { assert ValidLevel(n, q.fun[n]); }
    if n > 0 {
      BytesZero(q, n - 1);
      if NoneFit(q, n - 1) && n !in q.fun {
        forall k | k in q.fun ensures k > n { assert k != n; }
      }
    }
  }

  lemma {:induction false} BytesFrame(q: Queue, q': Queue, n: nat)
    requires forall k: nat | k <= n :: LevelBytes(q, k) == LevelBytes(q', k)
    ensures Bytes(q, n) == Bytes(q', n)
  {
    if n > 0 { BytesFrame(q, q', n - 1); }
  }

  lemma {:induction false} LevelPop(q: Queue, k: nat)
    requires k in q.fun && q.fun[k] != []
    ensures LevelBytes(PopFun(q, k), k) == LevelBytes(q, k) - Pow2(k)
  {
    assert Times(|q.fun[k]|, k) == Times(|q.fun[k]| - 1, k) + Pow2(k);
  }

  lemma {:induction false} BytesPop(q: Queue, k: nat, n: nat)
    requires ValidQueue(q) && k in q.fun && k <= n
    ensures Bytes(PopFun(q, k), n) == Bytes(q, n) - Pow2(k)
    decreases n
  {
    assert ValidLevel(k, q.fun[k]);
    if k == n {
      LevelPop(q, k);
      if n > 0 { BytesFrame(q, PopFun(q, k), n - 1); }
    } else {
      BytesPop(q, k, n - 1);
    }
  }

  lemma {:induction false} BytesSplit(q: Queue, m: nat, n: nat)
    requires m <= n && forall k: nat | k in q.fun && m < k :: k > n
    ensures Bytes(q, n) == Bytes(q, m)
    decreases n
  {
    if m < n { BytesSplit(q, m, n - 1); }
  }

  lemma {:induction false} PopKeepsValid(q: Queue, k: nat)
    requires ValidQueue(q) && k in q.fun
    ensures ValidLevel(k, q.fun[k])
    ensures ValidQueue(PopFun(q, k))
    ensures Fungible(NextFun(q, k)) && NextFun(q, k).sizeBits == k
  {
    assert ValidLevel(k, q.fun[k]);
    var r := PopFun(q, k);
    forall j | j in r.fun ensures ValidLevel(j, r.fun[j]) {
      assert ValidLevel(j, q.fun[j]);
    }
  }

  // ----- the recursive filler -----

  datatype Filled = Filled(q: Queue, u: Ut, left: nat)

  /** What the two half-sized calls add up to. */
  function Join(n: nat, first: Filled, second: Filled): Filled
    requires n > 0
  {
    if first.left == second.left then
      second.(left := if first.left == 0 then 0 else n)
    else
      Filled(second.q, second.u.AddPlaceholder(n - 1), 0)
  }

  /** `_fill_from_objects`: fill `2^n` bytes at the watermark; `left` is 0, or `n` when nothing fits. */
  function Fill(q: Queue, u: Ut, n: nat): (r: Filled)
    requires ValidQueue(q)
    ensures ValidQueue(r.q)
    decreases n
  {
    if NoneFit(q, n) then Filled(q, u, n)
    else if n in q.fun then
      PopKeepsValid(q, n);
      Filled(PopFun(q, n), u.Add(Allocated(NextFun(q, n))), 0)
    else
      FitsBelow(q, n);
      var first := Fill(q, u, n - 1);
      var second := Fill(first.q, first.u, n - 1);
      Join(n, first, second)
  }

  lemma {:induction false} FitsBelow(q: Queue, n: nat)
    requires ValidQueue(q) && !NoneFit(q, n) && n !in q.fun
    ensures n > 1 && !NoneFit(q, n - 1)
  {
    var k :| k in q.fun && k <= n;
    assert ValidLevel(k, q.fun[k]);
  }

  /** Sizes above `n` and pinned objects are out of the filler's reach. */
  lemma {:induction false} FillFrame(q: Queue, u: Ut, n: nat)
    requires ValidQueue(q)
    ensures OnlyUpTo(q, Fill(q, u, n).q, n)
    decreases n
  {
    if !NoneFit(q, n) {
      if n in q.fun {
        PopKeepsValid(q, n);
      } else {
        FitsBelow(q, n);
        FillFrame(q, u, n - 1);
        var first := Fill(q, u, n - 1);
        FillFrame(first.q, first.u, n - 1);
        OnlyUpToTwice(q, first.q, Fill(first.q, first.u, n - 1).q, n);
      }
    }
  }

  /** Pinned objects and sizes above `n` are as before, and no size is new. */
  ghost predicate OnlyUpTo(q: Queue, q': Queue, n: nat) {
    && q'.unfun == q.unfun
    && (forall k: nat | k > n :: k in q'.fun <==> k in q.fun)
    && (forall k: nat | k > n && k in q.fun :: q'.fun[k] == q.fun[k])
    && (forall k: nat | k in q'.fun :: k in q.fun)
  }

  lemma {:induction false} OnlyUpToTwice(a: Queue, b: Queue, c: Queue, n: nat)
    requires n > 0 && OnlyUpTo(a, b, n - 1) && OnlyUpTo(b, c, n - 1)
    ensures OnlyUpTo(a, c, n)
  {
  }

  /** What one call may do to levels and bytes. */
  ghost predicate Conserved(q: Queue, u: Ut, n: nat, r: Filled) {
    if NoneFit(q, n) then r == Filled(q, u, n)
    else
      && r.left == 0
      && r.u.watermark == u.watermark + Pow2(n)
      && Payload(r.u.children) == Payload(u.children) + Min(Pow2(n), Bytes(q, n))
      && Bytes(r.q, n) == Bytes(q, n) - Min(Pow2(n), Bytes(q, n))
  }

  /**
   Exact work conservation. Called for `2^n` bytes the filler does nothing and returns `n` when no
   queued object is that small; otherwise it returns 0, advances the watermark by exactly `2^n` and
   places exactly the smaller of `2^n` and the bytes waiting, the rest being placeholders.
   */
  lemma {:induction false} FillConservesWork(q: Queue, u: Ut, n: nat)
    requires ValidQueue(q)
    ensures Conserved(q, u, n, Fill(q, u, n))
    decreases n
  {
    if NoneFit(q, n) {
    } else if n in q.fun {
      PopKeepsValid(q, n);
      BytesPop(q, n, n);
      SpanAppend(u.children, Allocated(NextFun(q, n)));
    } else {
      FitsBelow(q, n);
      var first := Fill(q, u, n - 1);
      var second := Fill(first.q, first.u, n - 1);
      FillConservesWork(q, u, n - 1);
      FillConservesWork(first.q, first.u, n - 1);
      FillFrame(q, u, n - 1);
      FillFrame(first.q, first.u, n - 1);
      JoinConserves(q, u, n, first, second);
    }
  }

  lemma {:induction false} JoinConserves(q: Queue, u: Ut, n: nat, first: Filled, second: Filled)
    requires ValidQueue(q) && ValidQueue(first.q) && ValidQueue(second.q)
    requires n > 1 && n !in q.fun && n !in first.q.fun && n !in second.q.fun && !NoneFit(q, n - 1)
    requires Conserved(q, u, n - 1, first) && Conserved(first.q, first.u, n - 1, second)
    ensures Conserved(q, u, n, Join(n, first, second))
  {
    BytesZero(q, n - 1);
    BytesZero(first.q, n - 1);
    assert Bytes(q, n) == Bytes(q, n - 1);
    assert Bytes(second.q, n) == Bytes(second.q, n - 1);
    SpanAppend(second.u.children, Placeholder(second.u.WatermarkPaddr(), n - 1));
  }

  /** The parts of an untyped that never change. */
  predicate SameUntyped(u: Ut, v: Ut) {
    u.name == v.name && u.sizeBits == v.sizeBits && u.paddr == v.paddr
  }

  lemma {:induction false} PlaceholderKeepsLaid(u: Ut, n: nat)
    requires u.Laid() && Aligned(u.WatermarkPaddr(), n) && Pow2(n) <= u.Remaining()
    ensures u.AddPlaceholder(n).Laid()
  {
    AddKeepsLaid(u, Placeholder(u.WatermarkPaddr(), n));
  }

  /** At an aligned watermark with room for `2^n` bytes, filling keeps the layout sound. */
  lemma {:induction false} FillKeepsLaid(q: Queue, u: Ut, n: nat)
    requires ValidQueue(q) && u.Laid()
    requires Aligned(u.WatermarkPaddr(), n) && Pow2(n) <= u.Remaining()
    ensures Fill(q, u, n).u.Laid() && SameUntyped(u, Fill(q, u, n).u)
    decreases n, 1
  {
    if NoneFit(q, n) {
    } else if n in q.fun {
      PopKeepsValid(q, n);
      AddKeepsLaid(u, Allocated(NextFun(q, n)));
    } else {
      FitsBelow(q, n);
      HalvesKeepLaid(q, u, n);
    }
  }

  lemma {:induction false} HalvesKeepLaid(q: Queue, u: Ut, n: nat)
    requires ValidQueue(q) && u.Laid() && n > 0 && !NoneFit(q, n) && n !in q.fun && !NoneFit(q, n - 1)
    requires Aligned(u.WatermarkPaddr(), n) && Pow2(n) <= u.Remaining()
    ensures Fill(q, u, n).u.Laid() && SameUntyped(u, Fill(q, u, n).u)
    decreases n, 0
  {
    AlignedDown(u.WatermarkPaddr(), n);
    var first := Fill(q, u, n - 1);
    FillKeepsLaid(q, u, n - 1);
    FillConservesWork(q, u, n - 1);
    HalfDone(u, first.u, n);
    FillKeepsLaid(first.q, first.u, n - 1);
    FillConservesWork(first.q, first.u, n - 1);
    JoinKeepsLaid(u, n, first, Fill(first.q, first.u, n - 1));
  }

  lemma {:induction false} JoinKeepsLaid(u: Ut, n: nat, first: Filled, second: Filled)
    requires n > 0 && ValidQueue(first.q)
    requires second.u.Laid() && SameUntyped(u, second.u) && SameUntyped(u, first.u)
    requires Aligned(first.u.WatermarkPaddr(), n - 1) && Pow2(n - 1) <= first.u.Remaining()
    requires first.left == 0 && Conserved(first.q, first.u, n - 1, second)
    ensures Join(n, first, second).u.Laid() && SameUntyped(u, Join(n, first, second).u)
  {
    if second.left != first.left {
      assert second == Filled(first.q, first.u, n - 1);
      PlaceholderKeepsLaid(first.u, n - 1);
    }
  }

  lemma {:induction false} HalfDone(u: Ut, v: Ut, n: nat)
    requires n > 0 && SameUntyped(u, v) && v.watermark == u.watermark + Pow2(n - 1)
    requires Aligned(u.WatermarkPaddr(), n - 1) && Pow2(n) <= u.Remaining()
    ensures Aligned(v.WatermarkPaddr(), n - 1) && Pow2(n - 1) <= v.Remaining()
  {
    Pow2Aligned(n - 1, n - 1);
    AlignedAdd(u.WatermarkPaddr(), Pow2(n - 1), n - 1);
  }

  /** Everything the two half-sized calls and the placeholder between them rely on. */
  lemma {:induction false} HalvesFit(q: Queue, u: Ut, n: nat)
    requires ValidQueue(q) && u.Laid() && !NoneFit(q, n) && n !in q.fun
    requires Aligned(u.WatermarkPaddr(), n) && Pow2(n) <= u.Remaining()
    ensures n > 1 && Aligned(u.WatermarkPaddr(), n - 1) && Pow2(n - 1) <= u.Remaining()
    ensures var first := Fill(q, u, n - 1);
            var second := Fill(first.q, first.u, n - 1);
            && first.u.Laid() && SameUntyped(u, first.u)
            && Aligned(first.u.WatermarkPaddr(), n - 1) && Pow2(n - 1) <= first.u.Remaining()
            && (first.left != second.left ==> second.u == first.u)
            && Fill(q, u, n) == Join(n, first, second)
  {
    FitsBelow(q, n);
    AlignedDown(u.WatermarkPaddr(), n);
    FillKeepsLaid(q, u, n - 1);
    FillConservesWork(q, u, n - 1);
    var first := Fill(q, u, n - 1);
    HalfDone(u, first.u, n);
    FillConservesWork(first.q, first.u, n - 1);
  }

  /** Whatever leaves the queue becomes a child, once: the ledger of one object. */
  function Held(u: Ut, o: Object): nat { multiset(u.children)[Allocated(o)] }

  lemma {:induction false} FillLedger(q: Queue, u: Ut, n: nat, o: Object)
    requires ValidQueue(q)
    ensures var r := Fill(q, u, n);
            Waiting(r.q, o) + Held(r.u, o) == Waiting(q, o) + Held(u, o)
    decreases n
  {
    if NoneFit(q, n) {
    } else if n in q.fun {
      PopLedger(q, u, n, o);
    } else {
      FitsBelow(q, n);
      FillLedger(q, u, n - 1, o);
      var first := Fill(q, u, n - 1);
      FillLedger(first.q, first.u, n - 1, o);
    }
  }

  lemma {:induction false} PopLedger(q: Queue, u: Ut, n: nat, o: Object)
    requires ValidQueue(q) && n in q.fun
    ensures ValidLevel(n, q.fun[n])
    ensures Waiting(PopFun(q, n), o) + Held(u.Add(Allocated(NextFun(q, n))), o) == Waiting(q, o) + Held(u, o)
  {
    PopKeepsValid(q, n);
    var s := q.fun[n];
    assert s == s[..|s| - 1] + [s[|s| - 1]];
  }

  // ----- advancing an untyped by a number of bytes -----

  datatype Used = Used(q: Queue, u: Ut)

  /** The largest block that both the bytes to go and the watermark are aligned to. */
  function BlockBits(u: Ut, bytes: nat): nat
    requires bytes > 0
  {
    if u.WatermarkPaddr() != 0
    then Min(TrailingZeros(bytes), TrailingZeros(u.WatermarkPaddr()))
    else TrailingZeros(bytes)
  }

  lemma {:induction false} BlockBitsFit(u: Ut, bytes: nat)
    requires bytes > 0
    ensures var k := BlockBits(u, bytes);
            Pow2(k) <= bytes && Aligned(u.WatermarkPaddr(), k) && Aligned(bytes, k)
  {
    var k := BlockBits(u, bytes);
    TrailingZerosBound(bytes);
    Pow2Monotone(k, TrailingZeros(bytes));
    TrailingZerosExact(bytes, k);
    if u.WatermarkPaddr() != 0 { TrailingZerosExact(u.WatermarkPaddr(), k); } else { ZeroAligned(k); }
  }

  /** One round of `_use_untyped`. */
  function UseBlock(q: Queue, u: Ut, k: nat, device: bool): (r: Used)
    requires ValidQueue(q)
    ensures ValidQueue(r.q)
  {
    if device then Used(q, u.AddPlaceholder(k))
    else
      var f := Fill(q, u, k);
      Used(f.q, if f.left == k then f.u.AddPlaceholder(k) else f.u)
  }

  lemma {:induction false} UseBlockSound(q: Queue, u: Ut, k: nat, device: bool)
    requires ValidQueue(q) && u.Laid()
    requires Aligned(u.WatermarkPaddr(), k) && Pow2(k) <= u.Remaining()
    ensures var r := UseBlock(q, u, k, device);
            r.u.Laid() && SameUntyped(u, r.u) && r.u.watermark == u.watermark + Pow2(k)
  {
    if device {
      PlaceholderKeepsLaid(u, k);
    } else {
      FillKeepsLaid(q, u, k);
      FillConservesWork(q, u, k);
      if NoneFit(q, k) {
        PlaceholderKeepsLaid(u, k);
      } else {
        PositiveBits(q, k);
      }
    }
  }

  lemma {:induction false} PositiveBits(q: Queue, k: nat)
    requires ValidQueue(q) && !NoneFit(q, k)
    ensures k > 0
  {
    var j :| j in q.fun && j <= k;
    assert ValidLevel(j, q.fun[j]);
  }

  /** `_use_untyped`: move the watermark `bytes` further, block by block. */
  function UseUntyped(q: Queue, u: Ut, bytes: nat, device: bool): (r: Used)
    requires ValidQueue(q) && u.Laid() && bytes <= u.Remaining()
    ensures ValidQueue(r.q) && r.u.Laid() && SameUntyped(u, r.u)
    ensures r.u.watermark == u.watermark + bytes
    decreases bytes
  {
    if bytes == 0 then Used(q, u)
    else
      var k := BlockBits(u, bytes);
      BlockBitsFit(u, bytes);
      UseBlockSound(q, u, k, device);
      var r := UseBlock(q, u, k, device);
      UseUntyped(r.q, r.u, bytes - Pow2(k), device)
  }

  /** One unfolding of the loop. */
  lemma {:induction false} UseStep(q: Queue, u: Ut, bytes: nat, device: bool)
    requires ValidQueue(q) && u.Laid() && 0 < bytes <= u.Remaining()
    ensures var k := BlockBits(u, bytes);
            var r := UseBlock(q, u, k, device);
            && Pow2(k) <= bytes && Aligned(u.WatermarkPaddr(), k)
            && r.u.Laid() && SameUntyped(u, r.u) && bytes - Pow2(k) <= r.u.Remaining()
            && UseUntyped(q, u, bytes, device) == UseUntyped(r.q, r.u, bytes - Pow2(k), device)
  {
    var k := BlockBits(u, bytes);
    BlockBitsFit(u, bytes);
    UseBlockSound(q, u, k, device);
    var r := UseBlock(q, u, k, device);
    assert r.u.Remaining() == u.Remaining() - Pow2(k);
  }

  predicate OnlyPinned(u: Ut) {
    forall c | c in u.children && c.Allocated? :: Pinned(c.obj)
  }

  lemma {:induction false} UseBlockLedger(q: Queue, u: Ut, k: nat, device: bool, o: Object)
    requires ValidQueue(q)
    ensures var r := UseBlock(q, u, k, device);
            Waiting(r.q, o) + Held(r.u, o) == Waiting(q, o) + Held(u, o)
  {
    if !device { FillLedger(q, u, k, o); }
  }

  /** One round seen from outside: what remains to be done, and what has not changed. */
  lemma {:induction false} UseRound(q: Queue, u: Ut, bytes: nat, device: bool, o: Object) returns (r: Used, left: nat)
    requires ValidQueue(q) && u.Laid() && 0 < bytes <= u.Remaining()
    ensures left < bytes && ValidQueue(r.q) && r.u.Laid() && left <= r.u.Remaining()
    ensures UseUntyped(q, u, bytes, device) == UseUntyped(r.q, r.u, left, device)
    ensures Waiting(r.q, o) + Held(r.u, o) == Waiting(q, o) + Held(u, o)
    ensures r.q.unfun == q.unfun
    ensures device ==> r.q == q && (OnlyPinned(u) ==> OnlyPinned(r.u))
  {
    r, left := UseRoundStep(q, u, bytes, device);
    UseBlockLedger(q, u, BlockBits(u, bytes), device, o);
    UseBlockFrame(q, u, BlockBits(u, bytes), device);
  }

  lemma {:induction false} UseRoundStep(q: Queue, u: Ut, bytes: nat, device: bool) returns (r: Used, left: nat)
    requires ValidQueue(q) && u.Laid() && 0 < bytes <= u.Remaining()
    ensures r == UseBlock(q, u, BlockBits(u, bytes), device) && left == bytes - Pow2(BlockBits(u, bytes))
    ensures left < bytes && ValidQueue(r.q) && r.u.Laid() && SameUntyped(u, r.u) && left <= r.u.Remaining()
    ensures Aligned(u.WatermarkPaddr(), BlockBits(u, bytes))
    ensures UseUntyped(q, u, bytes, device) == UseUntyped(r.q, r.u, left, device)
  {
    r, left := UseBlockFits(q, u, bytes, device);
    UseStep(q, u, bytes, device);
  }

  lemma {:induction false} UseBlockFits(q: Queue, u: Ut, bytes: nat, device: bool) returns (r: Used, left: nat)
    requires ValidQueue(q) && u.Laid() && 0 < bytes <= u.Remaining()
    ensures Aligned(u.WatermarkPaddr(), BlockBits(u, bytes)) && Pow2(BlockBits(u, bytes)) <= bytes
    ensures r == UseBlock(q, u, BlockBits(u, bytes), device) && left == bytes - Pow2(BlockBits(u, bytes))
    ensures left < bytes && ValidQueue(r.q) && r.u.Laid() && SameUntyped(u, r.u) && left <= r.u.Remaining()
  {
    var k := BlockBits(u, bytes);
    BlockBitsFit(u, bytes);
    UseBlockSound(q, u, k, device);
    r, left := UseBlock(q, u, k, device), bytes - Pow2(k);
    assert r.u.Remaining() == u.Remaining() - Pow2(k);
  }

  lemma {:induction false} UseLedger(q: Queue, u: Ut, bytes: nat, device: bool, o: Object)
    requires ValidQueue(q) && u.Laid() && bytes <= u.Remaining()
    ensures var r := UseUntyped(q, u, bytes, device);
            Waiting(r.q, o) + Held(r.u, o) == Waiting(q, o) + Held(u, o)
    decreases bytes
  {
    if bytes > 0 {
      var r, left := UseRound(q, u, bytes, device, o);
      UseLedger(r.q, r.u, left, device, o);
    }
  }

  /** Pinned objects stay queued, and a device untyped receives placeholders only. */
  lemma {:induction false} UseFrame(q: Queue, u: Ut, bytes: nat, device: bool)
    requires ValidQueue(q) && u.Laid() && bytes <= u.Remaining()
    ensures var r := UseUntyped(q, u, bytes, device);
            && r.q.unfun == q.unfun
            && (device ==> r.q == q && (OnlyPinned(u) ==> OnlyPinned(r.u)))
    decreases bytes
  {
    if bytes > 0 {
      var r, left := UseRound(q, u, bytes, device, Object("", 0, None));
      UseFrame(r.q, r.u, left, device);
    }
  }

  lemma {:induction false} UseBlockFrame(q: Queue, u: Ut, k: nat, device: bool)
    requires ValidQueue(q)
    ensures var r := UseBlock(q, u, k, device);
            && r.q.unfun == q.unfun
            && (device ==> r.q == q && (OnlyPinned(u) ==> OnlyPinned(r.u)))
  {
    FillFrame(q, u, k);
  }

  /** A fresh, size-aligned untyped is filled by a single call of the filler. */
  lemma {:induction false} UseWhole(q: Queue, u: Ut)
    requires ValidQueue(q) && u.Laid() && u.Fresh()
    ensures UseUntyped(q, u, u.Size(), false) == UseBlock(q, u, u.sizeBits, false)
  {
    TrailingZerosPow2(u.sizeBits);
    if u.paddr != 0 { TrailingZerosExact(u.paddr, u.sizeBits); }
    assert BlockBits(u, u.Size()) == u.sizeBits;
    BlockBitsFit(u, u.Size());
    UseBlockSound(q, u, u.sizeBits, false);
  }
}
