/**
 The Isabelle printer's check of cover lists that may come from anywhere: which it accepts, with which
 addresses, and why it refuses the others.
 */
module CoverLists {
  import opened Wrappers
  import opened Arithmetic
  import opened PhysAddrs

  type Table = map<Id, KObject>

  function SizeIn(objs: Table, id: Id): nat {
    if id in objs then Pow2(objs[id].sizeBits) else 0
  }

  /** The address behind the first `k` objects of a cover that begins at `base`. */
  function AddrAt(objs: Table, base: nat, cover: seq<Id>, k: nat): nat
    requires k <= |cover|
  {
    if k == 0 then base else AddrAt(objs, base, cover, k - 1) + SizeIn(objs, cover[k - 1])
  }

  // ----- one object, in words -----

  /** The object is known, declared nowhere or here, aligned to its size, and ends by `end`. */
  predicate WordFits(objs: Table, w: nat, end: nat, id: Id, addr: nat) {
    && id in objs
    && (objs[id].paddr.None? || objs[id].paddr.value == Word(addr, w))
    && Word(addr, w) % Pow2(objs[id].sizeBits) == 0
    && Word(addr + Pow2(objs[id].sizeBits), w) <= end
  }

  /** What is wrong with an object that does not fit. */
  function Complaint(objs: Table, w: nat, id: Id, addr: nat): Error {
    if id !in objs then UnknownObject
    else if objs[id].paddr.Some? && objs[id].paddr.value != Word(addr, w) then WrongPaddr
    else if Word(addr, w) % Pow2(objs[id].sizeBits) != 0 then Unaligned
    else OutsideUntyped
  }

  lemma {:induction false} WordSmall(x: nat, w: nat)
    requires x < Pow2(w)
    ensures Word(x, w) == x
  {
  }

  lemma {:induction false} WordAdd(a: nat, b: nat, w: nat)
    ensures Word(Word(a, w) + b, w) == Word(a + b, w)
    decreases a
  {
    if a >= Pow2(w) { WordAdd(a - Pow2(w), b, w); }
  }

  lemma {:induction false} OneObject(objs: Table, w: nat, end: nat, addr: nat, id: Id)
    requires id in objs ==> objs[id].sizeBits < w
    ensures Alloc1(objs, w, end, Word(addr, w), id)
         == if WordFits(objs, w, end, id, addr) then Right(Word(addr + SizeIn(objs, id), w))
            else Left(Complaint(objs, w, id, addr))
  {
    if id in objs {
      var n := objs[id].sizeBits;
      Pow2Monotone(n, w);
      WordSmall(Pow2(n), w);
      WordAdd(addr, Pow2(n), w);
      AlignedIsMultiple(Word(addr, w), n);
    }
  }

  // ----- whole covers -----

  /** Object `k` fits where the ones before it end. */
  predicate FitsAt(objs: Table, w: nat, end: nat, base: nat, cover: seq<Id>, k: nat)
    requires k < |cover|
  {
    WordFits(objs, w, end, cover[k], AddrAt(objs, base, cover, k))
  }

  /** From object `i` on, object `k` is the first that does not fit. */
  ghost predicate FirstMisfit(objs: Table, w: nat, end: nat, base: nat, cover: seq<Id>, i: nat, k: nat) {
    && i <= k < |cover| && !FitsAt(objs, w, end, base, cover, k)
    && forall j :: i <= j < k ==> FitsAt(objs, w, end, base, cover, j)
  }

  ghost predicate Explained(objs: Table, w: nat, end: nat, base: nat, cover: seq<Id>, i: nat, why: Error) {
    exists k: nat :: FirstMisfit(objs, w, end, base, cover, i, k)
                     && why == Complaint(objs, w, cover[k], AddrAt(objs, base, cover, k))
  }

  /** Every object from `i` on, with the address behind those before it. */
  predicate Places(objs: Table, w: nat, base: nat, cover: seq<Id>, i: nat, r: seq<(Id, nat)>) {
    && i <= |cover| && |r| == |cover| - i
    && forall j :: 0 <= j < |r| ==> r[j] == (cover[i + j], Word(AddrAt(objs, base, cover, i + j), w))
  }

  /** What must come out for the objects from `i` on. */
  ghost predicate Verdict(objs: Table, w: nat, end: nat, base: nat, cover: seq<Id>, i: nat,
                          r: Either<Error, seq<(Id, nat)>>)
  {
    match r
    case Right(places) =>
      && (forall k :: i <= k < |cover| ==> FitsAt(objs, w, end, base, cover, k))
      && Places(objs, w, base, cover, i, places)
    case Left(why) => Explained(objs, w, end, base, cover, i, why)
  }

  /** One object, if it fits, and the rest. */
  lemma {:induction false} CoverNext(objs: Table, w: nat, end: nat, base: nat, cover: seq<Id>, i: nat,
                                     rest: Either<Error, seq<(Id, nat)>>)
    requires i < |cover| && FitsAt(objs, w, end, base, cover, i) && Verdict(objs, w, end, base, cover, i + 1, rest)
    ensures Verdict(objs, w, end, base, cover, i,
                    if rest.Left? then rest
                    else Right([(cover[i], Word(AddrAt(objs, base, cover, i), w))] + rest.value))
  {
    if rest.Left? {
      var k: nat :| FirstMisfit(objs, w, end, base, cover, i + 1, k)
                    && rest.error == Complaint(objs, w, cover[k], AddrAt(objs, base, cover, k));
      assert FirstMisfit(objs, w, end, base, cover, i, k);
    }
  }

  lemma {:induction false} CoverStep(objs: Table, w: nat, end: nat, addr: nat, cover: seq<Id>, next: nat)
    requires (forall id | id in objs :: objs[id].sizeBits < w) && cover != []
    requires Alloc1(objs, w, end, addr, cover[0]) == Right(next)
    ensures var rest := CoverToPaddrs(objs, w, end, next, cover[1..]);
            CoverToPaddrs(objs, w, end, addr, cover)
            == if rest.Left? then rest else Right([(cover[0], addr)] + rest.value)
  {
  }

  lemma {:induction false} CoverVerdict(objs: Table, w: nat, end: nat, base: nat, cover: seq<Id>, i: nat)
    requires (forall id | id in objs :: objs[id].sizeBits < w) && i <= |cover|
    ensures Verdict(objs, w, end, base, cover, i,
                    CoverToPaddrs(objs, w, end, Word(AddrAt(objs, base, cover, i), w), cover[i..]))
    decreases |cover| - i
  {
    if i < |cover| {
      if FitsAt(objs, w, end, base, cover, i) {
        CoverVerdict(objs, w, end, base, cover, i + 1);
        var rest := CoverGoesOn(objs, w, end, base, cover, i);
        CoverNext(objs, w, end, base, cover, i, rest);
      } else {
        CoverStops(objs, w, end, base, cover, i);
      }
    }
  }

  lemma {:induction false} CoverGoesOn(objs: Table, w: nat, end: nat, base: nat, cover: seq<Id>, i: nat)
    returns (rest: Either<Error, seq<(Id, nat)>>)
    requires (forall id | id in objs :: objs[id].sizeBits < w) && i < |cover|
    requires FitsAt(objs, w, end, base, cover, i)
    ensures rest == CoverToPaddrs(objs, w, end, Word(AddrAt(objs, base, cover, i + 1), w), cover[i + 1..])
    ensures CoverToPaddrs(objs, w, end, Word(AddrAt(objs, base, cover, i), w), cover[i..])
         == if rest.Left? then rest else Right([(cover[i], Word(AddrAt(objs, base, cover, i), w))] + rest.value)
  {
    var addr, next := AddrAt(objs, base, cover, i), Word(AddrAt(objs, base, cover, i + 1), w);
    assert cover[i..][0] == cover[i] && cover[i..][1..] == cover[i + 1..];
    OneObject(objs, w, end, addr, cover[i]);
    CoverStep(objs, w, end, Word(addr, w), cover[i..], next);
    rest := CoverToPaddrs(objs, w, end, next, cover[i + 1..]);
  }

  lemma {:induction false} CoverStops(objs: Table, w: nat, end: nat, base: nat, cover: seq<Id>, i: nat)
    requires (forall id | id in objs :: objs[id].sizeBits < w) && i < |cover|
    requires !FitsAt(objs, w, end, base, cover, i)
    ensures Verdict(objs, w, end, base, cover, i,
                    CoverToPaddrs(objs, w, end, Word(AddrAt(objs, base, cover, i), w), cover[i..]))
  {
    var addr := AddrAt(objs, base, cover, i);
    OneObject(objs, w, end, addr, cover[i]);
    FirstRefused(objs, w, end, Word(addr, w), cover[i..], Complaint(objs, w, cover[i], addr));
    assert FirstMisfit(objs, w, end, base, cover, i, i);
  }

  /**
   For any cover list at all, in machine words: it is accepted if and only if each object is known, declared nowhere or
   where the ones before it end, aligned there, and ends by the end of the untyped, all as words; the addresses are then
   where the ones before them end. Otherwise the complaint is about the first object that does not fit.
   */
  lemma {:induction false} CoverExact(objs: Table, w: nat, paddr: nat, bits: nat, cover: seq<Id>)
    requires (forall id | id in objs :: objs[id].sizeBits < w) && paddr < Pow2(w)
    ensures Verdict(objs, w, Word(paddr + Pow2(bits), w), paddr, cover, 0,
                    UntypedCoverToPaddrs(objs, w, paddr, bits, cover))
  {
    WordSmall(paddr, w);
    WordAdd(Pow2(bits), paddr, w);
    CoverVerdict(objs, w, Word(paddr + Pow2(bits), w), paddr, cover, 0);
    assert cover[0..] == cover;
  }

  // ----- without overflow -----

  /** Object `k` is known, declared nowhere or where the ones before it end, aligned there, and inside the untyped. */
  predicate Fits(objs: Table, paddr: nat, bits: nat, cover: seq<Id>, k: nat)
    requires k < |cover|
  {
    var addr := AddrAt(objs, paddr, cover, k);
    && cover[k] in objs
    && (objs[cover[k]].paddr.None? || objs[cover[k]].paddr.value == addr)
    && addr % Pow2(objs[cover[k]].sizeBits) == 0
    && addr + Pow2(objs[cover[k]].sizeBits) <= paddr + Pow2(bits)
  }

  lemma {:induction false} AddrAtGrows(objs: Table, base: nat, cover: seq<Id>, j: nat, k: nat)
    requires j <= k <= |cover|
    ensures AddrAt(objs, base, cover, j) <= AddrAt(objs, base, cover, k)
    decreases k
  {
    if j < k { AddrAtGrows(objs, base, cover, j, k - 1); }
  }

  lemma {:induction false} FitsInWords(objs: Table, w: nat, paddr: nat, bits: nat, cover: seq<Id>, k: nat)
    requires k < |cover| && AddrAt(objs, paddr, cover, |cover|) < Pow2(w)
    ensures FitsAt(objs, w, paddr + Pow2(bits), paddr, cover, k) <==> Fits(objs, paddr, bits, cover, k)
    ensures Word(AddrAt(objs, paddr, cover, k), w) == AddrAt(objs, paddr, cover, k)
  {
    AddrAtGrows(objs, paddr, cover, k, k + 1);
    AddrAtGrows(objs, paddr, cover, k + 1, |cover|);
    WordSmall(AddrAt(objs, paddr, cover, k), w);
    WordSmall(AddrAt(objs, paddr, cover, k + 1), w);
  }

  /**
   When neither the untyped nor the objects reach the top of memory, a cover list is accepted if and only if its
   objects, laid one behind the other, are known, aligned, inside the untyped and where they are declared. The addresses
   found are those at which they lie.
   */
  lemma {:induction false} PlainCoverExact(objs: Table, w: nat, paddr: nat, bits: nat, cover: seq<Id>)
    requires forall id | id in objs :: objs[id].sizeBits < w
    requires paddr + Pow2(bits) < Pow2(w) && AddrAt(objs, paddr, cover, |cover|) < Pow2(w)
    ensures var r := UntypedCoverToPaddrs(objs, w, paddr, bits, cover);
            && (r.Right? <==> forall k :: 0 <= k < |cover| ==> Fits(objs, paddr, bits, cover, k))
            && (r.Right? ==> |r.value| == |cover| && forall k :: 0 <= k < |cover| ==>
                               r.value[k] == (cover[k], AddrAt(objs, paddr, cover, k)))
  {
    CoverExact(objs, w, paddr, bits, cover);
    WordSmall(paddr + Pow2(bits), w);
    PlainVerdict(objs, w, paddr, bits, cover, UntypedCoverToPaddrs(objs, w, paddr, bits, cover));
  }

  lemma {:induction false} PlainVerdict(objs: Table, w: nat, paddr: nat, bits: nat, cover: seq<Id>,
                                        r: Either<Error, seq<(Id, nat)>>)
    requires AddrAt(objs, paddr, cover, |cover|) < Pow2(w)
    requires Verdict(objs, w, paddr + Pow2(bits), paddr, cover, 0, r)
    ensures r.Right? <==> forall k :: 0 <= k < |cover| ==> Fits(objs, paddr, bits, cover, k)
    ensures r.Right? ==> |r.value| == |cover| && forall k :: 0 <= k < |cover| ==>
                           r.value[k] == (cover[k], AddrAt(objs, paddr, cover, k))
  {
    if r.Right? {
      forall k | 0 <= k < |cover|
        ensures Fits(objs, paddr, bits, cover, k) && r.value[k] == (cover[k], AddrAt(objs, paddr, cover, k))
      {
        FitsInWords(objs, w, paddr, bits, cover, k);
        assert FitsAt(objs, w, paddr + Pow2(bits), paddr, cover, k);
        assert r.value[k] == (cover[0 + k], Word(AddrAt(objs, paddr, cover, 0 + k), w));
      }
    } else {
      var k: nat :| FirstMisfit(objs, w, paddr + Pow2(bits), paddr, cover, 0, k)
                    && r.error == Complaint(objs, w, cover[k], AddrAt(objs, paddr, cover, k));
      FitsInWords(objs, w, paddr, bits, cover, k);
      assert !Fits(objs, paddr, bits, cover, k);
    }
  }

  // ----- overflow -----

  function EndAt(objs: Table, base: nat, cover: seq<Id>, k: nat): nat
    requires k < |cover|
  {
    AddrAt(objs, base, cover, k + 1)
  }

  /**
   Of an accepted cover list all objects lie inside the untyped if and only if they do not go past the top of memory.
   */
  lemma {:induction false} AcceptedInside(objs: Table, w: nat, paddr: nat, bits: nat, cover: seq<Id>)
    requires (forall id | id in objs :: objs[id].sizeBits < w) && paddr + Pow2(bits) < Pow2(w)
    requires UntypedCoverToPaddrs(objs, w, paddr, bits, cover).Right?
    ensures (forall k :: 0 <= k < |cover| ==> EndAt(objs, paddr, cover, k) <= paddr + Pow2(bits))
       <==> AddrAt(objs, paddr, cover, |cover|) < Pow2(w)
  {
    if AddrAt(objs, paddr, cover, |cover|) < Pow2(w) {
      PlainCoverExact(objs, w, paddr, bits, cover);
      forall k | 0 <= k < |cover| ensures EndAt(objs, paddr, cover, k) <= paddr + Pow2(bits) {
        assert Fits(objs, paddr, bits, cover, k);
      }
    } else {
      var last := |cover| - 1;
      assert cover != [] && EndAt(objs, paddr, cover, last) == AddrAt(objs, paddr, cover, |cover|);
    }
  }

  /** In 8-bit words, an object of 64 bytes is accepted in an untyped of 32 bytes, for its end wraps to 0. */
  lemma {:induction false} WrappedObjectAccepted(objs: Table, a: Id)
    requires objs == map[a := KObject(6, None)]
    ensures UntypedCoverToPaddrs(objs, 8, 192, 5, [a]) == Right([(a, 192)])
    ensures EndAt(objs, 192, [a], 0) > 192 + Pow2(5)
  {
    assert Pow2(5) == 32;
    assert Pow2(6) == 64;
    assert Pow2(8) == 256;
    WordSmall(192, 8);
    WordSmall(224, 8);
    assert Word(256, 8) == 0;
    assert AddrAt(objs, 192, [a], 0) == 192;
    assert EndAt(objs, 192, [a], 0) == 256;
    CoverExact(objs, 8, 192, 5, [a]);
    WrapsRight(objs, a, UntypedCoverToPaddrs(objs, 8, 192, 5, [a]));
  }

  lemma {:induction false} WrapsRight(objs: Table, a: Id, r: Either<Error, seq<(Id, nat)>>)
    requires objs == map[a := KObject(6, None)] && Pow2(6) == 64 && Word(192, 8) == 192 && Word(256, 8) == 0
    requires Verdict(objs, 8, 224, 192, [a], 0, r)
    ensures r == Right([(a, 192)])
  {
    assert AddrAt(objs, 192, [a], 0) == 192;
    assert FitsAt(objs, 8, 224, 192, [a], 0);
    assert forall k: nat :: !FirstMisfit(objs, 8, 224, 192, [a], 0, k);
    assert r.Right?;
    assert r.value == [r.value[0]] && r.value[0] == ([a][0 + 0], 192);
  }
}
