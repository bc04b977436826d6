/**
 When nothing is pinned, no untyped is device memory and every object fits every untyped,
 `allocate` wastes nothing: it succeeds exactly when there are enough bytes.
 */
module Completeness {
  import opened Wrappers
  import opened Arithmetic
  import opened Untypeds
  import opened BestFit
  import opened Allocation

  function ObjectBytes(objs: seq<Object>): nat {
    if objs == [] then 0
    else (if objs[0].sizeBits > 0 then Pow2(objs[0].sizeBits) else 0) + ObjectBytes(objs[1..])
  }

  function SupplyBytes(ts: seq<Tagged>): nat {
    if ts == [] then 0 else ts[0].ut.Size() + SupplyBytes(ts[1..])
  }

  /** A normal untyped nothing has been taken from yet. */
  predicate Untouched(t: Tagged) {
    t.ut.Laid() && t.ut.Fresh() && !t.device
  }

  /** No queued object is larger than `2^n` bytes. */
  predicate KeysUpTo(q: Queue, n: nat) {
    forall k | k in q.fun :: k <= n
  }

  predicate FitsEvery(q: Queue, ts: seq<Tagged>) {
    forall i :: 0 <= i < |ts| ==> Untouched(ts[i]) && KeysUpTo(q, ts[i].ut.sizeBits)
  }

  lemma {:induction false} SameBytes(q: Queue, m: nat, n: nat)
    requires KeysUpTo(q, m) && KeysUpTo(q, n)
    ensures Bytes(q, m) == Bytes(q, n)
  {
    if m <= n { BytesSplit(q, m, n); } else { BytesSplit(q, n, m); }
  }

  lemma {:induction false} BytesPush(q: Queue, o: Object, n: nat)
    requires ValidQueue(q) && o.sizeBits > 0 && o.sizeBits <= n
    ensures Bytes(PushFun(q, o), n) == Bytes(q, n) + Pow2(o.sizeBits)
    decreases n
  {
    var k := o.sizeBits;
    if k == n {
      if k in q.fun { assert Times(|q.fun[k]| + 1, k) == Times(|q.fun[k]|, k) + Pow2(k); }
      else { assert Times(1, k) == Times(0, k) + Pow2(k); }
      BytesFrame(q, PushFun(q, o), n - 1);
    } else {
      BytesPush(q, o, n - 1);
    }
  }

  lemma {:induction false} BuildBytes(q: Queue, objs: seq<Object>, n: nat)
    requires ValidQueue(q) && KeysUpTo(q, n)
    requires forall i :: 0 <= i < |objs| ==> !Pinned(objs[i]) && objs[i].sizeBits <= n
    ensures Build(q, objs).Some?
    ensures var r := Build(q, objs).value;
            KeysUpTo(r, n) && r.unfun == q.unfun && Bytes(r, n) == Bytes(q, n) + ObjectBytes(objs)
    decreases |objs|
  {
    if objs != [] {
      PushKeepsValid(q, objs[0]);
      if objs[0].sizeBits > 0 { BytesPush(q, objs[0], n); }
      BuildBytes(Push(q, objs[0]).value, objs[1..], n);
    }
  }

  /** A whole untouched untyped absorbs as many bytes as it has, or all that are waiting. */
  lemma {:induction false} TopUpAbsorbs(s: State)
    requires Inv(s) && Untouched(s.Cur()) && KeysUpTo(s.q, s.Cur().ut.sizeBits)
    ensures var q' := TopUp(s).q;
            var k := s.Cur().ut.sizeBits;
            && (forall j | j in q'.fun :: j in s.q.fun)
            && Bytes(q', k) == Bytes(s.q, k) - Min(Pow2(k), Bytes(s.q, k))
  {
    FillAbsorbs(s.q, s.Cur().ut);
    TopUpIsFill(s);
  }

  lemma {:induction false} TopUpIsFill(s: State)
    requires Inv(s) && Untouched(s.Cur())
    ensures TopUp(s).q == Fill(s.q, s.Cur().ut, s.Cur().ut.sizeBits).q
  {
    UseWhole(s.q, s.Cur().ut);
  }

  lemma {:induction false} FillAbsorbs(q: Queue, u: Ut)
    requires ValidQueue(q) && u.Laid() && u.Fresh() && KeysUpTo(q, u.sizeBits)
    ensures var q' := Fill(q, u, u.sizeBits).q;
            var k := u.sizeBits;
            && (forall j | j in q'.fun :: j in q.fun)
            && Bytes(q', k) == Bytes(q, k) - Min(Pow2(k), Bytes(q, k))
  {
    FillConservesWork(q, u, u.sizeBits);
    FillFrame(q, u, u.sizeBits);
    BytesZero(q, u.sizeBits);
  }

  lemma {:induction false} FungibleComplete(s: State, n: nat)
    requires Inv(s) && FitsEvery(s.q, s.Rest()) && KeysUpTo(s.q, n)
    ensures FungiblePhase(s).Done? <==> Bytes(s.q, n) <= SupplyBytes(s.Rest())
    decreases |s.all| - s.c
  {
    BytesZero(s.q, n);
    if s.q.fun != map[] {
      var k0 :| k0 in s.q.fun;
      assert !NoneFit(s.q, n);
      if !s.Last() {
        var s1 := NextUt(s);
        assert s.Rest()[0] == s1.Cur() && s.Rest()[1..] == s1.Rest();
        var k := s1.Cur().ut.sizeBits;
        TopUpAbsorbs(s1);
        var s2 := TopUp(s1);
        SameBytes(s.q, n, k);
        SameBytes(s2.q, n, k);
        FungibleComplete(s2, n);
      }
    }
  }

  /**
   With at least one untyped, nothing pinned, no device memory and every object no larger than the
   smallest untyped, `allocate` succeeds if and only if the bytes suffice.
   */
  lemma {:induction false} AllocateComplete(objs: seq<Object>, supply: seq<Tagged>)
    requires supply != []
    requires forall i :: 0 <= i < |supply| ==> Untouched(supply[i])
    requires forall j :: 0 <= j < |objs| ==> !Pinned(objs[j])
    requires forall i, j :: 0 <= i < |supply| && 0 <= j < |objs| ==> objs[j].sizeBits <= supply[i].ut.sizeBits
    ensures AllReady(supply)
    ensures Allocate(objs, supply).failure.None? <==> ObjectBytes(objs) <= SupplyBytes(supply)
  {
    assert AllReady(supply);
    if objs != [] {
      var n := supply[0].ut.sizeBits;
      BuildBytes(EMPTY_QUEUE, objs, n);
      NoBytes(n);
      var q := Build(EMPTY_QUEUE, objs).value;
      StartInv(objs, supply);
      var s := State(q, supply, 0);
      forall i | 0 <= i < |supply| ensures Untouched(supply[i]) && KeysUpTo(q, supply[i].ut.sizeBits) {
        BuildBytes(EMPTY_QUEUE, objs, supply[i].ut.sizeBits);
      }
      TopUpAbsorbs(s);
      var s1 := TopUp(s);
      FungibleComplete(s1, n);
      BytesZero(s1.q, n);
    }
  }

  lemma {:induction false} NoBytes(n: nat)
    ensures Bytes(EMPTY_QUEUE, n) == 0
  {
    if n > 0 { NoBytes(n - 1); }
  }
}
