/**
 `sort_untypeds`: the loader's counting sort of the boot untypeds, largest first.
 */
module LoaderSort {
  import opened Arithmetic

  /** One entry of the kernel's boot-time untyped list. */
  datatype UntypedDesc = UntypedDesc(paddr: nat, sizeBits: nat, isDevice: bool)

  /** Sizes the kernel hands out: `sizeBits` is a bit position of a machine word, and not 0. */
  predicate SizesInRange(list: seq<UntypedDesc>, wordSize: nat) {
    forall i :: 0 <= i < |list| && !list[i].isDevice ==> 1 <= list[i].sizeBits < wordSize
  }

  // ----- what the sort is to produce -----

  /** The normal untypeds of one size among the first `n`, in list order. */
  function OfSize(list: seq<UntypedDesc>, size: nat, n: nat): (r: seq<nat>)
    requires n <= |list|
    ensures |r| <= n
  {
    if n == 0 then []
    else
      var before := OfSize(list, size, n - 1);
      if !list[n - 1].isDevice && list[n - 1].sizeBits == size then before + [n - 1] else before
  }

  /** All normal untypeds of size `size` or less, largest first. */
  function Descending(list: seq<UntypedDesc>, size: nat): seq<nat> {
    if size == 0 then [] else OfSize(list, size, |list|) + Descending(list, size - 1)
  }

  lemma {:induction false} OfSizeMembers(list: seq<UntypedDesc>, size: nat, n: nat)
    requires n <= |list|
    ensures forall k :: k in OfSize(list, size, n) <==> 0 <= k < n && !list[k].isDevice && list[k].sizeBits == size
    ensures forall a, b :: 0 <= a < b < |OfSize(list, size, n)| ==> OfSize(list, size, n)[a] < OfSize(list, size, n)[b]
  {
    if n > 0 {
      OfSizeMembers(list, size, n - 1);
      var before := OfSize(list, size, n - 1);
      assert forall a :: 0 <= a < |before| ==> before[a] in before;
    }
  }

  /** Larger untypeds come first, and equally large ones stay in list order. */
  predicate Precedes(list: seq<UntypedDesc>, k: nat, l: nat) {
    k < |list| && l < |list| &&
    (list[k].sizeBits > list[l].sizeBits || (list[k].sizeBits == list[l].sizeBits && k < l))
  }

  /** The result is exactly the normal untypeds up to a size, each once, in the one stable descending order. */
  lemma {:induction false} DescendingSorted(list: seq<UntypedDesc>, size: nat)
    ensures var r := Descending(list, size);
            && (forall k :: k in r <==> 0 <= k < |list| && !list[k].isDevice && 1 <= list[k].sizeBits <= size)
            && (forall a, b :: 0 <= a < b < |r| ==> Precedes(list, r[a], r[b]))
  {
    if size > 0 {
      OfSizeMembers(list, size, |list|);
      DescendingSorted(list, size - 1);
      var first, rest := OfSize(list, size, |list|), Descending(list, size - 1);
      forall a, b | 0 <= a < b < |first + rest| ensures Precedes(list, (first + rest)[a], (first + rest)[b]) {
        if a < |first| { assert first[a] in first; }
        if b < |first| { assert first[b] in first; } else { assert rest[b - |first|] in rest; }
        if a >= |first| { assert (first + rest)[a] == rest[a - |first|]; }
      }
    }
  }

  /** So with all sizes in range nothing normal is lost and nothing is kept twice. */
  lemma {:induction false} SortedUntypedsExact(list: seq<UntypedDesc>, wordSize: nat)
    requires wordSize > 0 && SizesInRange(list, wordSize)
    ensures var r := Descending(list, wordSize - 1);
            && (forall k :: k in r <==> 0 <= k < |list| && !list[k].isDevice)
            && (forall a, b :: 0 <= a < b < |r| ==> r[a] != r[b] && Precedes(list, r[a], r[b]))
  {
    DescendingSorted(list, wordSize - 1);
  }

  // ----- the counting sort -----

  /** Where the block of one size starts. */
  function StartOf(list: seq<UntypedDesc>, wordSize: nat, size: nat): nat
    requires size < wordSize
    decreases wordSize - size
  {
    if size == wordSize - 1 then 0
    else StartOf(list, wordSize, size + 1) + |OfSize(list, size + 1, |list|)|
  }

  lemma {:induction false} StartStep(list: seq<UntypedDesc>, wordSize: nat, size: nat)
    requires 0 < size < wordSize
    ensures StartOf(list, wordSize, size - 1) == StartOf(list, wordSize, size) + |OfSize(list, size, |list|)|
  {
  }

  lemma {:induction false} StartsApart(list: seq<UntypedDesc>, wordSize: nat, s: nat, t: nat)
    requires s < t < wordSize
    ensures StartOf(list, wordSize, t) + |OfSize(list, t, |list|)| <= StartOf(list, wordSize, s)
    decreases t - s
  {
    if s + 1 < t { StartsApart(list, wordSize, s + 1, t); }
  }

  lemma {:induction false} OfSizeGrows(list: seq<UntypedDesc>, size: nat, m: nat, n: nat)
    requires m <= n <= |list|
    ensures |OfSize(list, size, m)| <= |OfSize(list, size, n)|
    ensures OfSize(list, size, m) == OfSize(list, size, n)[..|OfSize(list, size, m)|]
    decreases n
  {
    if m < n { OfSizeGrows(list, size, m, n - 1); }
  }

  function Offset(s: seq<nat>, start: nat): (r: seq<nat>)
    ensures |r| == |s| && forall i :: 0 <= i < |s| ==> r[i] == start + s[i]
  {
    seq(|s|, i requires 0 <= i < |s| => start + s[i])
  }

  /** What has been found of one size so far is where it belongs. */
  ghost predicate BlockPlaced(list: seq<UntypedDesc>, wordSize: nat, start: nat, out: seq<nat>, n: nat, size: nat)
    requires n <= |list| && size < wordSize
  {
    var a, found := StartOf(list, wordSize, size), OfSize(list, size, n);
    a + |found| <= |out| && forall r :: 0 <= r < |found| ==> out[a + r] == start + found[r]
  }

  ghost predicate Placed(list: seq<UntypedDesc>, wordSize: nat, start: nat, out: seq<nat>, n: nat)
    requires n <= |list|
  {
    forall s :: 0 < s < wordSize ==> BlockPlaced(list, wordSize, start, out, n, s)
  }

  lemma {:induction false} PlacedNone(list: seq<UntypedDesc>, wordSize: nat, start: nat, out: seq<nat>)
    requires wordSize > 0 && StartOf(list, wordSize, 0) <= |out|
    ensures Placed(list, wordSize, start, out, 0)
  {
    forall s | 0 < s < wordSize ensures BlockPlaced(list, wordSize, start, out, 0, s) {
      StartsApart(list, wordSize, 0, s);
    }
  }

  /** Writing the next entry of a size behind the ones already found. */
  lemma {:induction false} BlockGrows(list: seq<UntypedDesc>, wordSize: nat, start: nat, out: seq<nat>, n: nat)
    requires n < |list| && SizesInRange(list, wordSize) && wordSize > 0 && !list[n].isDevice
    requires StartOf(list, wordSize, 0) <= |out|
    requires BlockPlaced(list, wordSize, start, out, n, list[n].sizeBits)
    ensures var s := list[n].sizeBits;
            var p := StartOf(list, wordSize, s) + |OfSize(list, s, n)|;
            p < StartOf(list, wordSize, 0) && BlockPlaced(list, wordSize, start, out[p := start + n], n + 1, s)
  {
    var s := list[n].sizeBits;
    var a, found := StartOf(list, wordSize, s), OfSize(list, s, n);
    var p := a + |found|;
    OfSizeGrows(list, s, n + 1, |list|);
    StartsApart(list, wordSize, 0, s);
    assert OfSize(list, s, n + 1) == found + [n];
  }

  /** The blocks of other sizes are not touched by it. */
  lemma {:induction false} BlockStays(list: seq<UntypedDesc>, wordSize: nat, start: nat, out: seq<nat>, n: nat,
                                      p: nat, v: nat, s: nat, t: nat)
    requires n < |list| && 0 < s < wordSize && 0 < t < wordSize && s != t
    requires list[n].isDevice || list[n].sizeBits == s
    requires p < |out| && StartOf(list, wordSize, s) <= p < StartOf(list, wordSize, s) + |OfSize(list, s, |list|)|
    requires BlockPlaced(list, wordSize, start, out, n, t)
    ensures BlockPlaced(list, wordSize, start, out[p := v], n + 1, t)
  {
    OfSizeGrows(list, t, n, |list|);
    if t < s { StartsApart(list, wordSize, t, s); } else { StartsApart(list, wordSize, s, t); }
  }

  lemma {:induction false} PlacedStep(list: seq<UntypedDesc>, wordSize: nat, start: nat, out: seq<nat>, n: nat)
    requires n < |list| && SizesInRange(list, wordSize)
    requires wordSize > 0 && StartOf(list, wordSize, 0) <= |out| && Placed(list, wordSize, start, out, n)
    ensures list[n].isDevice ==> Placed(list, wordSize, start, out, n + 1)
    ensures !list[n].isDevice ==>
              var s := list[n].sizeBits;
              var p := StartOf(list, wordSize, s) + |OfSize(list, s, n)|;
              p < StartOf(list, wordSize, 0) && Placed(list, wordSize, start, out[p := start + n], n + 1)
  {
    var n' := n + 1;
    if list[n].isDevice {
      forall t | 0 < t < wordSize ensures BlockPlaced(list, wordSize, start, out, n', t) {
        assert BlockPlaced(list, wordSize, start, out, n, t);
      }
    } else {
      var s := list[n].sizeBits;
      var p := StartOf(list, wordSize, s) + |OfSize(list, s, n)|;
      BlockGrows(list, wordSize, start, out, n);
      OfSizeGrows(list, s, n + 1, |list|);
      var out' := out[p := start + n];
      forall t | 0 < t < wordSize ensures BlockPlaced(list, wordSize, start, out', n', t) {
        if t != s {
          assert BlockPlaced(list, wordSize, start, out, n, t);
          BlockStays(list, wordSize, start, out, n, p, start + n, s, t);
        }
      }
    }
  }

  /** Once all blocks are in place, the output is the descending list. */
  lemma {:induction false} PlacedAll(list: seq<UntypedDesc>, wordSize: nat, start: nat, out: seq<nat>, size: nat)
    requires size < wordSize && StartOf(list, wordSize, 0) <= |out|
    requires Placed(list, wordSize, start, out, |list|)
    ensures StartOf(list, wordSize, size) <= StartOf(list, wordSize, 0)
    ensures out[StartOf(list, wordSize, size)..StartOf(list, wordSize, 0)] == Offset(Descending(list, size), start)
  {
    if size > 0 {
      PlacedAll(list, wordSize, start, out, size - 1);
      var a, b, c := StartOf(list, wordSize, size), StartOf(list, wordSize, size - 1), StartOf(list, wordSize, 0);
      var block, rest := OfSize(list, size, |list|), Descending(list, size - 1);
      assert BlockPlaced(list, wordSize, start, out, |list|, size);
      assert b == a + |block| && out[a..b] == Offset(block, start);
      assert out[a..c] == out[a..b] + out[b..c];
      assert Offset(block + rest, start) == Offset(block, start) + Offset(rest, start);
    }
  }

  /** The running index of each size after the first `n` entries have been placed. */
  ghost predicate CountsAt(list: seq<UntypedDesc>, wordSize: nat, c: seq<nat>, n: nat)
    requires n <= |list|
  {
    && |c| == wordSize
    && forall s {:trigger c[s]} :: 0 < s < wordSize ==> c[s] == StartOf(list, wordSize, s) + |OfSize(list, s, n)|
  }

  lemma {:induction false} CountsStep(list: seq<UntypedDesc>, wordSize: nat, c: seq<nat>, n: nat)
    requires n < |list| && SizesInRange(list, wordSize) && CountsAt(list, wordSize, c, n)
    ensures list[n].isDevice ==> CountsAt(list, wordSize, c, n + 1)
    ensures !list[n].isDevice ==>
              var s := list[n].sizeBits;
              CountsAt(list, wordSize, c[s := c[s] + 1], n + 1)
  {
  }

  /** The first pass: how many normal untypeds there are of each size. */
  method CountSizes(list: seq<UntypedDesc>, wordSize: nat) returns (count: array<nat>)
    requires wordSize > 0 && SizesInRange(list, wordSize)
    ensures fresh(count) && count.Length == wordSize
    ensures forall s {:trigger count[s]} :: 0 < s < wordSize ==> count[s] == |OfSize(list, s, |list|)|
  {
    count := new nat[wordSize](_ => 0);
    for i := 0 to |list|
      invariant forall s :: 0 < s < wordSize ==> count[s] == |OfSize(list, s, i)|
    {
      if !list[i].isDevice {
        count[list[i].sizeBits] := count[list[i].sizeBits] + 1;
      }
    }
  }

  /** The second pass: turn the counts into the starting index of each size, largest first. */
  method StartIndices(list: seq<UntypedDesc>, wordSize: nat, count: array<nat>)
    requires wordSize > 0 && count.Length == wordSize
    requires forall s {:trigger count[s]} :: 0 < s < wordSize ==> count[s] == |OfSize(list, s, |list|)|
    modifies count
    ensures CountsAt(list, wordSize, count[..], 0)
  {
    var total: nat := 0;
    var size: nat := wordSize - 1;
    while size != 0
      invariant size < wordSize
      invariant total == StartOf(list, wordSize, size)
      invariant forall s {:trigger count[s]} :: 0 < s <= size ==> count[s] == |OfSize(list, s, |list|)|
      invariant forall s {:trigger count[s]} :: size < s < wordSize ==> count[s] == StartOf(list, wordSize, s)
    {
      StartStep(list, wordSize, size);
      var oldCount := count[size];
      count[size] := total;
      total := total + oldCount;
      size := size - 1;
    }
  }

  /** The third pass: store each normal untyped at the running index of its size. */
  method PlaceEach(list: seq<UntypedDesc>, untypedStart: nat, wordSize: nat, count: array<nat>, cptrs: array<nat>)
    returns (numNormal: nat)
    requires wordSize > 0 && SizesInRange(list, wordSize) && cptrs != count
    requires StartOf(list, wordSize, 0) <= cptrs.Length
    requires CountsAt(list, wordSize, count[..], 0)
    modifies cptrs, count
    ensures numNormal == NormalCount(list, |list|)
    ensures Placed(list, wordSize, untypedStart, cptrs[..], |list|)
  {
    PlacedNone(list, wordSize, untypedStart, cptrs[..]);
    numNormal := 0;
    for i := 0 to |list|
      invariant CountsAt(list, wordSize, count[..], i)
      invariant Placed(list, wordSize, untypedStart, cptrs[..], i)
      invariant numNormal == NormalCount(list, i)
    {
      PlacedStep(list, wordSize, untypedStart, cptrs[..], i);
      CountsStep(list, wordSize, count[..], i);
      if !list[i].isDevice {
        StoreNext(cptrs, count, list[i].sizeBits, untypedStart + i);
        numNormal := numNormal + 1;
      }
    }
  }

  /** `sort_untypeds`: fills the front of `cptrs` and returns how many normal untypeds there are. */
  method SortUntypeds(list: seq<UntypedDesc>, untypedStart: nat, wordSize: nat, cptrs: array<nat>)
    returns (numNormal: nat)
    requires wordSize > 0 && SizesInRange(list, wordSize)
    requires |Descending(list, wordSize - 1)| <= cptrs.Length
    modifies cptrs
    ensures numNormal == |Descending(list, wordSize - 1)|
    ensures cptrs[..numNormal] == Offset(Descending(list, wordSize - 1), untypedStart)
  {
    CountsAgree(list, wordSize);
    var count := CountSizes(list, wordSize);
    StartIndices(list, wordSize, count);
    numNormal := PlaceEach(list, untypedStart, wordSize, count, cptrs);
    PlacedAll(list, wordSize, untypedStart, cptrs[..], wordSize - 1);
    assert cptrs[..numNormal] == cptrs[..][0..numNormal];
  }

  /** Store one cptr at the running index of its size, and move the index on. */
  method StoreNext(cptrs: array<nat>, count: array<nat>, s: nat, cptr: nat)
    requires cptrs != count && s < count.Length && count[s] < cptrs.Length
    modifies cptrs, count
    ensures cptrs[..] == old(cptrs[..])[old(count[s]) := cptr]
    ensures count[..] == old(count[..])[s := old(count[s]) + 1]
  {
    cptrs[count[s]] := cptr;
    count[s] := count[s] + 1;
  }

  function NormalCount(list: seq<UntypedDesc>, n: nat): nat
    requires n <= |list|
  {
    if n == 0 then 0 else NormalCount(list, n - 1) + if list[n - 1].isDevice then 0 else 1
  }

  lemma {:induction false} DescendingLength(list: seq<UntypedDesc>, wordSize: nat, size: nat)
    requires size < wordSize
    ensures StartOf(list, wordSize, size) + |Descending(list, size)| == StartOf(list, wordSize, 0)
  {
    if size > 0 { DescendingLength(list, wordSize, size - 1); }
  }

  /** Sum of the block lengths over the first `n` entries, for sizes up to `size`. */
  function CountUpTo(list: seq<UntypedDesc>, size: nat, n: nat): nat
    requires n <= |list|
  {
    if size == 0 then 0 else |OfSize(list, size, n)| + CountUpTo(list, size - 1, n)
  }

  lemma {:induction false} CountUpToStep(list: seq<UntypedDesc>, size: nat, n: nat)
    requires 0 < n <= |list|
    ensures CountUpTo(list, size, n) == CountUpTo(list, size, n - 1)
              + if !list[n - 1].isDevice && 1 <= list[n - 1].sizeBits <= size then 1 else 0
  {
    if size > 0 { CountUpToStep(list, size - 1, n); }
  }

  lemma {:induction false} CountUpToNormal(list: seq<UntypedDesc>, wordSize: nat, n: nat)
    requires wordSize > 0 && SizesInRange(list, wordSize) && n <= |list|
    ensures CountUpTo(list, wordSize - 1, n) == NormalCount(list, n)
  {
    if n > 0 {
      CountUpToStep(list, wordSize - 1, n);
      CountUpToNormal(list, wordSize, n - 1);
    } else {
      CountUpToZero(list, wordSize - 1);
    }
  }

  lemma {:induction false} CountUpToZero(list: seq<UntypedDesc>, size: nat)
    ensures CountUpTo(list, size, 0) == 0
  {
    if size > 0 { CountUpToZero(list, size - 1); }
  }

  lemma {:induction false} CountUpToDescending(list: seq<UntypedDesc>, size: nat)
    ensures CountUpTo(list, size, |list|) == |Descending(list, size)|
  {
    if size > 0 { CountUpToDescending(list, size - 1); }
  }

  lemma {:induction false} CountsAgree(list: seq<UntypedDesc>, wordSize: nat)
    requires wordSize > 0 && SizesInRange(list, wordSize)
    ensures NormalCount(list, |list|) == |Descending(list, wordSize - 1)|
    ensures StartOf(list, wordSize, wordSize - 1) == 0
    ensures StartOf(list, wordSize, 0) == |Descending(list, wordSize - 1)|
  {
    CountUpToNormal(list, wordSize, |list|);
    CountUpToDescending(list, wordSize - 1);
    DescendingLength(list, wordSize, wordSize - 1);
  }
}
