/**
 The allocator's sorted list of untypeds: only the two neighbours of a new block are examined, and
 `_overlap` compares nothing but starts and ends.
 */
module UntypedList {
  import opened Arithmetic
  import opened Untypeds
  import opened Allocation

  predicate StringLess(a: string, b: string) {
    b != [] && (a == [] || a[0] < b[0] || (a[0] == b[0] && StringLess(a[1..], b[1..])))
  }

  /** `Untyped.__lt__`: by address, then size, then name. */
  predicate UtLess(u: Ut, v: Ut) {
    || u.paddr < v.paddr
    || (u.paddr == v.paddr && u.sizeBits < v.sizeBits)
    || (u.paddr == v.paddr && u.sizeBits == v.sizeBits && StringLess(u.name, v.name))
  }

  /** Python's order on `(untyped, device)` pairs. */
  predicate TaggedLess(a: Tagged, b: Tagged) {
    if a.ut.paddr == b.ut.paddr && a.ut.sizeBits == b.ut.sizeBits && a.ut.name == b.ut.name
    then !a.device && b.device
    else UtLess(a.ut, b.ut)
  }

  /** `bisect_right`: how many leading entries are not above the new one. */
  function BisectRight(ts: seq<Tagged>, t: Tagged): (i: nat)
    ensures i <= |ts|
    ensures forall j :: 0 <= j < i ==> !TaggedLess(t, ts[j])
    ensures i < |ts| ==> TaggedLess(t, ts[i])
  {
    if ts == [] || TaggedLess(t, ts[0]) then 0 else 1 + BisectRight(ts[1..], t)
  }

  /** `_overlap`, for a block that starts no later than the other. */
  predicate Overlap(before: Ut, after: Ut) {
    !(before.paddr < after.paddr && before.End() < after.End())
  }

  predicate Apart(u: Ut, v: Ut) {
    u.End() <= v.paddr || v.End() <= u.paddr
  }

  /** What `add_untyped` can report. */
  datatype Verdict = Accepted | NoPaddr | NotAligned | Overlapping

  function Judge(ts: seq<Tagged>, t: Tagged): Verdict {
    var i := BisectRight(ts, t);
    if !Aligned(t.ut.paddr, t.ut.sizeBits) then NotAligned
    else if i > 0 && Overlap(ts[i - 1].ut, t.ut) then Overlapping
    else if i < |ts| && Overlap(t.ut, ts[i].ut) then Overlapping
    else Accepted
  }

  function Insert(ts: seq<Tagged>, t: Tagged): seq<Tagged> {
    var i := BisectRight(ts, t);
    ts[..i] + [t] + ts[i..]
  }

  /** Aligned blocks in address order, none reaching into the next. */
  predicate SortedApart(ts: seq<Tagged>) {
    && (forall i :: 0 <= i < |ts| ==> Aligned(ts[i].ut.paddr, ts[i].ut.sizeBits))
    && forall i, j :: 0 <= i < j < |ts| ==> ts[i].ut.End() <= ts[j].ut.paddr
  }

  /** On aligned power-of-two blocks comparing starts and ends decides disjointness. */
  lemma {:induction false} OverlapExact(u: Ut, v: Ut)
    requires Aligned(u.paddr, u.sizeBits) && Aligned(v.paddr, v.sizeBits) && u.paddr <= v.paddr
    ensures Overlap(u, v) <==> !Apart(u, v)
  {
    if u.sizeBits <= v.sizeBits {
      BlocksNestOrAvoid(u.paddr, u.sizeBits, v.paddr, v.sizeBits);
    } else {
      BlocksNestOrAvoid(v.paddr, v.sizeBits, u.paddr, u.sizeBits);
    }
  }

  /** The two neighbours decide for the whole list, in both directions. */
  lemma {:induction false} NeighboursSuffice(ts: seq<Tagged>, t: Tagged)
    requires SortedApart(ts)
    ensures Judge(ts, t) == Accepted
       <==> Aligned(t.ut.paddr, t.ut.sizeBits) && forall i :: 0 <= i < |ts| ==> Apart(ts[i].ut, t.ut)
    ensures Judge(ts, t) == Accepted ==> SortedApart(Insert(ts, t))
  {
    var i := BisectRight(ts, t);
    if Aligned(t.ut.paddr, t.ut.sizeBits) {
      if i > 0 {
        assert !TaggedLess(t, ts[i - 1]);
        OverlapExact(ts[i - 1].ut, t.ut);
      }
      if i < |ts| { OverlapExact(t.ut, ts[i].ut); }
      if Judge(ts, t) == Accepted {
        forall j | 0 <= j < |ts| ensures if j < i then ts[j].ut.End() <= t.ut.paddr else t.ut.End() <= ts[j].ut.paddr {
          if j < i { assert ts[j].ut.paddr <= ts[i - 1].ut.paddr; }
          else { assert ts[i].ut.paddr <= ts[j].ut.paddr; }
        }
        InsertSorted(ts, t, i);
      }
    }
  }

  lemma {:induction false} InsertSorted(ts: seq<Tagged>, t: Tagged, i: nat)
    requires SortedApart(ts) && i <= |ts| && Aligned(t.ut.paddr, t.ut.sizeBits)
    requires forall j :: 0 <= j < i ==> ts[j].ut.End() <= t.ut.paddr
    requires forall j :: i <= j < |ts| ==> t.ut.End() <= ts[j].ut.paddr
    ensures SortedApart(ts[..i] + [t] + ts[i..])
  {
    var r := ts[..i] + [t] + ts[i..];
    forall a, b | 0 <= a < b < |r| ensures r[a].ut.End() <= r[b].ut.paddr {
      if a < i { assert r[a] == ts[a]; } else if a > i { assert r[a] == ts[a - 1]; }
      if b < i { assert r[b] == ts[b]; } else if b > i { assert r[b] == ts[b - 1]; }
    }
  }

  /** The list after a sequence of `add_untyped` calls, rejected blocks being skipped. */
  function AddAll(ts: seq<Tagged>, blocks: seq<Tagged>): seq<Tagged>
    decreases |blocks|
  {
    if blocks == [] then ts
    else AddAll(if Judge(ts, blocks[0]) == Accepted then Insert(ts, blocks[0]) else ts, blocks[1..])
  }

  /** After any sequence of calls the accepted blocks are aligned, sorted and pairwise disjoint, */
  lemma {:induction false} AddAllSorted(ts: seq<Tagged>, blocks: seq<Tagged>)
    requires SortedApart(ts)
    ensures SortedApart(AddAll(ts, blocks))
    decreases |blocks|
  {
    if blocks != [] {
      NeighboursSuffice(ts, blocks[0]);
      AddAllSorted(if Judge(ts, blocks[0]) == Accepted then Insert(ts, blocks[0]) else ts, blocks[1..]);
    }
  }

  /** and the next block is accepted exactly when it is aligned and avoids every one of them. */
  lemma {:induction false} AcceptedIffApart(blocks: seq<Tagged>, t: Tagged)
    ensures Judge(AddAll([], blocks), t) == Accepted
       <==> Aligned(t.ut.paddr, t.ut.sizeBits)
            && forall i :: 0 <= i < |AddAll([], blocks)| ==> Apart(AddAll([], blocks)[i].ut, t.ut)
  {
    AddAllSorted([], blocks);
    NeighboursSuffice(AddAll([], blocks), t);
  }
}
