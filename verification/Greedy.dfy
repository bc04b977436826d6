/**
 The dynamic loader's create loop as a placement algorithm: objects in order, untypeds in order,
 never going back. On descending sizes it fails only when no placement exists at all.
 */
module Greedy {
  import opened Wrappers
  import opened Arithmetic
  import opened Physical

  /** An object as the create loop sees it. */
  datatype CdlObject =
    | NotCreated           // requires_creation is false
    | Elsewhere            // gets a slot, but no memory from a normal untyped
    | Normal(bits: nat)    // retyped from the current normal untyped

  /** The smallest multiple of `2^bits` that is not below `x`. */
  function AlignUp(x: nat, bits: nat): (r: nat)
    ensures x <= r
    decreases bits
  {
    if bits == 0 then x else 2 * AlignUp((x + 1) / 2, bits - 1)
  }

  lemma {:induction false} AlignUpExact(x: nat, bits: nat)
    ensures AlignUp(x, bits) < x + Pow2(bits) && Aligned(AlignUp(x, bits), bits)
    decreases bits
  {
    if bits > 0 { AlignUpExact((x + 1) / 2, bits - 1); }
  }

  lemma {:induction false} AlignUpFixed(x: nat, bits: nat)
    requires Aligned(x, bits)
    ensures AlignUp(x, bits) == x
    decreases bits
  {
    if bits > 0 {
      assert (x + 1) / 2 == x / 2;
      AlignUpFixed(x / 2, bits - 1);
    }
  }

  /** Where the kernel's retype puts an object: the free index, aligned up. */
  function RetypeOffset(b: Block, free: nat, bits: nat): nat {
    AlignUp(b.paddr + free, bits) - b.paddr
  }

  predicate RetypeFits(b: Block, free: nat, bits: nat) {
    RetypeOffset(b, free, bits) + Pow2(bits) <= b.Size()
  }

  /** Where an object ended up: in which untyped and at which offset, or without memory. */
  datatype Place = NoMemory | At(ut: nat, offset: nat)

  /** The create loop from object `i`, untyped `u` and its free index: the places, or `None` for "ran out". */
  function Create(objs: seq<CdlObject>, uts: seq<Block>, i: nat, u: nat, free: nat): Option<seq<Place>>
    requires i <= |objs| && u <= |uts|
    decreases |objs| - i + |uts| - u
  {
    if i == |objs| then Some([])
    else if u == |uts| then None
    else
      match objs[i]
      case Normal(bits) =>
        if RetypeFits(uts[u], free, bits) then
          var at := RetypeOffset(uts[u], free, bits);
          match Create(objs, uts, i + 1, u, at + Pow2(bits))
          case None => None
          case Some(rest) => Some([At(u, at)] + rest)
        else Create(objs, uts, i, u + 1, 0)
      case _ =>
        match Create(objs, uts, i + 1, u, free)
        case None => None
        case Some(rest) => Some([NoMemory] + rest)
  }

  // ----- placements, independently of how they are found -----

  predicate InBlock(objs: seq<CdlObject>, uts: seq<Block>, pl: seq<Place>, i: nat)
    requires |pl| == |objs| && i < |objs|
  {
    objs[i].Normal? ==>
      && pl[i].At? && pl[i].ut < |uts|
      && pl[i].offset + Pow2(objs[i].bits) <= uts[pl[i].ut].Size()
  }

  predicate AlignedAt(objs: seq<CdlObject>, uts: seq<Block>, pl: seq<Place>, i: nat)
    requires |pl| == |objs| && i < |objs|
  {
    objs[i].Normal? && pl[i].At? && pl[i].ut < |uts| ==>
      Aligned(uts[pl[i].ut].paddr + pl[i].offset, objs[i].bits)
  }

  predicate Disjoint(objs: seq<CdlObject>, pl: seq<Place>, i: nat, j: nat)
    requires |pl| == |objs| && i < |objs| && j < |objs|
  {
    objs[i].Normal? && objs[j].Normal? && pl[i].At? && pl[j].At? && pl[i].ut == pl[j].ut ==>
      || pl[i].offset + Pow2(objs[i].bits) <= pl[j].offset
      || pl[j].offset + Pow2(objs[j].bits) <= pl[i].offset
  }

  /** Every normal object inside some untyped, no two of them overlapping. */
  predicate Packing(objs: seq<CdlObject>, uts: seq<Block>, pl: seq<Place>) {
    && |pl| == |objs|
    && (forall i :: 0 <= i < |objs| ==> InBlock(objs, uts, pl, i))
    && (forall i, j :: 0 <= i < j < |objs| ==> Disjoint(objs, pl, i, j))
  }

  /** A packing in which every object is aligned to its own size, as the kernel demands. */
  predicate Placement(objs: seq<CdlObject>, uts: seq<Block>, pl: seq<Place>) {
    Packing(objs, uts, pl) && forall i :: 0 <= i < |objs| ==> AlignedAt(objs, uts, pl, i)
  }

  // ----- the orders the two sorts provide -----

  predicate DescendingNormals(objs: seq<CdlObject>) {
    forall i, j :: 0 <= i < j < |objs| && objs[i].Normal? && objs[j].Normal? ==> objs[i].bits >= objs[j].bits
  }

  predicate DescendingBlocks(uts: seq<Block>) {
    && (forall i :: 0 <= i < |uts| ==> Aligned(uts[i].paddr, uts[i].bits))
    && forall i, j :: 0 <= i < j < |uts| ==> uts[i].bits >= uts[j].bits
  }

  // ----- volumes -----

  function Demand(objs: seq<CdlObject>, n: nat): nat
    requires n <= |objs|
  {
    if n == 0 then 0
    else Demand(objs, n - 1) + if objs[n - 1].Normal? then Pow2(objs[n - 1].bits) else 0
  }

  function Capacity(uts: seq<Block>, n: nat): nat
    requires n <= |uts|
  {
    if n == 0 then 0 else Capacity(uts, n - 1) + uts[n - 1].Size()
  }

  /** One byte of one untyped. */
  datatype Cell = Cell(ut: int, pos: int)

  /** The bytes `[offset, offset + len)` of untyped `u`. */
  function Cells(u: nat, offset: nat, len: nat): set<Cell> {
    if len == 0 then {} else Cells(u, offset, len - 1) + {Cell(u, offset + len - 1)}
  }

  lemma {:induction false} CellsMember(u: nat, offset: nat, len: nat, c: Cell)
    ensures c in Cells(u, offset, len) <==> c.ut == u && offset <= c.pos < offset + len
  {
    if len > 0 { CellsMember(u, offset, len - 1, c); }
  }

  lemma {:induction false} CellsSize(u: nat, offset: nat, len: nat)
    ensures |Cells(u, offset, len)| == len
  {
    if len > 0 {
      CellsSize(u, offset, len - 1);
      CellsMember(u, offset, len - 1, Cell(u, offset + len - 1));
    }
  }

  function AllCells(uts: seq<Block>, n: nat): set<Cell>
    requires n <= |uts|
  {
    if n == 0 then {} else AllCells(uts, n - 1) + Cells(n - 1, 0, uts[n - 1].Size())
  }

  lemma {:induction false} AllCellsMember(uts: seq<Block>, n: nat, c: Cell)
    requires n <= |uts|
    ensures c in AllCells(uts, n) <==> 0 <= c.ut < n && 0 <= c.pos < uts[c.ut].Size()
  {
    if n > 0 {
      AllCellsMember(uts, n - 1, c);
      CellsMember(n - 1, 0, uts[n - 1].Size(), c);
    }
  }

  lemma {:induction false} AllCellsSize(uts: seq<Block>, n: nat)
    requires n <= |uts|
    ensures |AllCells(uts, n)| == Capacity(uts, n)
  {
    if n > 0 {
      var m := n - 1;
      AllCellsSize(uts, m);
      AllCellsApart(uts, m);
      CellsSize(m, 0, uts[m].Size());
      DisjointSize(AllCells(uts, m), Cells(m, 0, uts[m].Size()));
    }
  }

  lemma {:induction false} AllCellsApart(uts: seq<Block>, m: nat)
    requires m < |uts|
    ensures AllCells(uts, m) !! Cells(m, 0, uts[m].Size())
  {
    forall c | c in AllCells(uts, m) ensures c !in Cells(m, 0, uts[m].Size()) {
      AllCellsMember(uts, m, c);
      CellsMember(m, 0, uts[m].Size(), c);
    }
  }

  lemma {:induction false} DisjointSize(a: set<Cell>, b: set<Cell>)
    requires a !! b
    ensures |a + b| == |a| + |b|
  {
  }

  /** The bytes object `i` occupies. */
  function CellsOf(objs: seq<CdlObject>, pl: seq<Place>, i: nat): set<Cell>
    requires |pl| == |objs| && i < |objs|
  {
    if objs[i].Normal? && pl[i].At? then Cells(pl[i].ut, pl[i].offset, Pow2(objs[i].bits)) else {}
  }

  lemma {:induction false} CellsOfMember(objs: seq<CdlObject>, pl: seq<Place>, i: nat, c: Cell)
    requires |pl| == |objs| && i < |objs|
    ensures c in CellsOf(objs, pl, i) <==>
              && objs[i].Normal? && pl[i].At? && c.ut == pl[i].ut
              && pl[i].offset <= c.pos < pl[i].offset + Pow2(objs[i].bits)
  {
    if objs[i].Normal? && pl[i].At? { CellsMember(pl[i].ut, pl[i].offset, Pow2(objs[i].bits), c); }
  }

  /** The bytes the first `n` objects occupy. */
  function UsedCells(objs: seq<CdlObject>, pl: seq<Place>, n: nat): set<Cell>
    requires |pl| == |objs| && n <= |objs|
  {
    if n == 0 then {} else UsedCells(objs, pl, n - 1) + CellsOf(objs, pl, n - 1)
  }

  lemma {:induction false} UsedCellsMember(objs: seq<CdlObject>, pl: seq<Place>, n: nat, c: Cell)
    requires |pl| == |objs| && n <= |objs|
    ensures c in UsedCells(objs, pl, n) ==> exists i :: 0 <= i < n && c in CellsOf(objs, pl, i)
  {
    if n > 0 { UsedCellsMember(objs, pl, n - 1, c); }
  }

  lemma {:induction false} UsedApart(objs: seq<CdlObject>, uts: seq<Block>, pl: seq<Place>, n: nat)
    requires Packing(objs, uts, pl) && n < |objs|
    ensures UsedCells(objs, pl, n) !! CellsOf(objs, pl, n)
  {
    forall c | c in UsedCells(objs, pl, n) ensures c !in CellsOf(objs, pl, n) {
      UsedCellsMember(objs, pl, n, c);
      var i :| 0 <= i < n && c in CellsOf(objs, pl, i);
      CellsOfMember(objs, pl, i, c);
      CellsOfMember(objs, pl, n, c);
      assert Disjoint(objs, pl, i, n);
    }
  }

  /** Objects that do not overlap occupy as many bytes as they ask for. */
  lemma {:induction false} UsedVolume(objs: seq<CdlObject>, uts: seq<Block>, pl: seq<Place>, n: nat)
    requires Packing(objs, uts, pl) && n <= |objs|
    ensures |UsedCells(objs, pl, n)| == Demand(objs, n)
  {
    if n > 0 {
      var m := n - 1;
      UsedVolume(objs, uts, pl, m);
      UsedApart(objs, uts, pl, m);
      DisjointSize(UsedCells(objs, pl, m), CellsOf(objs, pl, m));
      OneVolume(objs, uts, pl, m);
    }
  }

  lemma {:induction false} OneVolume(objs: seq<CdlObject>, uts: seq<Block>, pl: seq<Place>, i: nat)
    requires Packing(objs, uts, pl) && i < |objs|
    ensures |CellsOf(objs, pl, i)| == if objs[i].Normal? then Pow2(objs[i].bits) else 0
  {
    assert InBlock(objs, uts, pl, i);
    if objs[i].Normal? { CellsSize(pl[i].ut, pl[i].offset, Pow2(objs[i].bits)); }
  }

  /**
   A certificate that no packing exists: the first `n` objects are all too large for the untypeds from
   `m` on, and ask for more bytes than the untypeds before `m` have.
   */
  predicate Overfull(objs: seq<CdlObject>, uts: seq<Block>, n: nat, m: nat) {
    && n <= |objs| && m <= |uts|
    && (forall i, u :: 0 <= i < n && m <= u < |uts| && objs[i].Normal? ==> objs[i].bits > uts[u].bits)
    && Demand(objs, n) > Capacity(uts, m)
  }

  lemma {:induction false} OverfullRefutes(objs: seq<CdlObject>, uts: seq<Block>, n: nat, m: nat, pl: seq<Place>)
    requires Overfull(objs, uts, n, m)
    ensures !Packing(objs, uts, pl)
  {
    if Packing(objs, uts, pl) {
      UsedVolume(objs, uts, pl, n);
      var used, all := UsedCells(objs, pl, n), AllCells(uts, m);
      forall c | c in used ensures c in all {
        UsedCellsMember(objs, pl, n, c);
        var i :| 0 <= i < n && c in CellsOf(objs, pl, i);
        CellsOfMember(objs, pl, i, c);
        AllCellsMember(uts, m, c);
        assert InBlock(objs, uts, pl, i);
        if pl[i].ut >= m { Pow2Monotone(uts[pl[i].ut].bits, objs[i].bits); }
      }
      AllCellsSize(uts, m);
      SubsetSize(used, all);
    }
  }

  lemma {:induction false} SubsetSize<T>(a: set<T>, b: set<T>)
    requires a <= b
    ensures |a| <= |b|
    decreases a
  {
    if a != {} {
      var x :| x in a;
      SubsetSize(a - {x}, b - {x});
    }
  }

  // ----- the greedy loop -----

  /**
   What the loop maintains on descending input: everything before the current point is full, and the
   free index suits every object still to come.
   */
  predicate Tight(objs: seq<CdlObject>, uts: seq<Block>, i: nat, u: nat, free: nat, lim: nat) {
    && i <= |objs| && u <= |uts|
    && Demand(objs, i) == Capacity(uts, u) + free
    && (u == |uts| ==> free == 0)
    && (u < |uts| ==> free <= uts[u].Size())
    && Aligned(free, lim) && (free > 0 ==> u < |uts| && lim <= uts[u].bits)
    && (forall k :: i <= k < |objs| && objs[k].Normal? ==> objs[k].bits <= lim)
    && (forall k :: 0 <= k < i && objs[k].Normal? ==> objs[k].bits >= lim)
  }

  /** A retype from a tight state either continues exactly at the free index, or finds the untyped full or too small. */
  lemma {:induction false} TightRetype(objs: seq<CdlObject>, uts: seq<Block>, i: nat, u: nat, free: nat, lim: nat)
    requires DescendingBlocks(uts) && Tight(objs, uts, i, u, free, lim)
    requires i < |objs| && u < |uts| && objs[i].Normal?
    ensures var bits := objs[i].bits;
            if RetypeFits(uts[u], free, bits) then
              RetypeOffset(uts[u], free, bits) == free && bits <= uts[u].bits && Aligned(free + Pow2(bits), bits)
            else
              free == uts[u].Size() || (free == 0 && bits > uts[u].bits)
  {
    var b, bits := uts[u], objs[i].bits;
    if bits <= b.bits {
      AlignedWeaken(b.paddr, bits, b.bits);
      AlignedWeaken(free, bits, lim);
      AlignedAdd(b.paddr, free, bits);
      AlignUpFixed(b.paddr + free, bits);
      Pow2Aligned(bits, bits);
      AlignedAdd(free, Pow2(bits), bits);
      Pow2Aligned(bits, b.bits);
      if free < b.Size() { AlignedGap(free, b.Size(), bits); }
    } else {
      Pow2Monotone(b.bits, bits);
    }
  }

  lemma {:induction false} TightAdvance(objs: seq<CdlObject>, uts: seq<Block>, i: nat, u: nat, free: nat, lim: nat)
    requires DescendingNormals(objs) && Tight(objs, uts, i, u, free, lim)
    requires i < |objs| && u < |uts| && objs[i].Normal? && objs[i].bits <= uts[u].bits
    requires free + Pow2(objs[i].bits) <= uts[u].Size() && Aligned(free + Pow2(objs[i].bits), objs[i].bits)
    ensures Tight(objs, uts, i + 1, u, free + Pow2(objs[i].bits), objs[i].bits)
  {
  }

  lemma {:induction false} TightNext(objs: seq<CdlObject>, uts: seq<Block>, i: nat, u: nat, lim: nat)
    requires u < |uts| && Tight(objs, uts, i, u, uts[u].Size(), lim)
    ensures Tight(objs, uts, i, u + 1, 0, lim)
  {
    ZeroAligned(lim);
  }

  lemma {:induction false} CertifyHere(objs: seq<CdlObject>, uts: seq<Block>, i: nat, u: nat, lim: nat)
    requires DescendingNormals(objs) && DescendingBlocks(uts) && Tight(objs, uts, i, u, 0, lim)
    requires i < |objs| && objs[i].Normal? && (u < |uts| ==> objs[i].bits > uts[u].bits)
    ensures Overfull(objs, uts, i + 1, u)
  {
  }

  lemma {:induction false} CreateFailsOn(objs: seq<CdlObject>, uts: seq<Block>, i: nat, u: nat, free: nat)
    requires i <= |objs| && u < |uts| && Create(objs, uts, i, u, free).None?
    ensures i < |objs|
    ensures objs[i].Normal? && RetypeFits(uts[u], free, objs[i].bits)
            ==> Create(objs, uts, i + 1, u, RetypeOffset(uts[u], free, objs[i].bits) + Pow2(objs[i].bits)).None?
    ensures objs[i].Normal? && !RetypeFits(uts[u], free, objs[i].bits) ==> Create(objs, uts, i, u + 1, 0).None?
    ensures !objs[i].Normal? ==> Create(objs, uts, i + 1, u, free).None?
  {
  }

  /** If the loop runs out of untypeds, there is a certificate that nothing else could have worked. */
  lemma {:induction false} FailureCertified(objs: seq<CdlObject>, uts: seq<Block>, i: nat, u: nat, free: nat, lim: nat)
    returns (n: nat, m: nat)
    requires DescendingNormals(objs) && DescendingBlocks(uts) && Tight(objs, uts, i, u, free, lim)
    requires uts != [] && (u == |uts| ==> i < |objs| && objs[i].Normal?)
    requires Create(objs, uts, i, u, free).None?
    ensures Overfull(objs, uts, n, m)
    decreases |objs| - i + |uts| - u
  {
    if u == |uts| {
      CertifyHere(objs, uts, i, u, lim);
      n, m := i + 1, u;
    } else {
      var i', u', free', lim' := FailStep(objs, uts, i, u, free, lim);
      if i' == i && u' == u {
        CertifyHere(objs, uts, i, u, lim);
        n, m := i + 1, u;
      } else {
        n, m := FailureCertified(objs, uts, i', u', free', lim');
      }
    }
  }

  /** The next state of a failing run, which is tight again, or the same state if it is the one that shows why. */
  lemma {:induction false} FailStep(objs: seq<CdlObject>, uts: seq<Block>, i: nat, u: nat, free: nat, lim: nat)
    returns (i': nat, u': nat, free': nat, lim': nat)
    requires DescendingNormals(objs) && DescendingBlocks(uts) && Tight(objs, uts, i, u, free, lim)
    requires u < |uts| && Create(objs, uts, i, u, free).None?
    ensures i <= i' <= i + 1 && u <= u' <= u + 1 && u' <= |uts|
    ensures Tight(objs, uts, i', u', free', lim') && Create(objs, uts, i', u', free').None?
    ensures i' == i && u' == u ==> i < |objs| && objs[i].Normal? && objs[i].bits > uts[u].bits && free == 0
    ensures u' == u + 1 ==> i' == i && i < |objs| && objs[i].Normal?
  {
    i', u', free', lim' := i, u, free, lim;
    CreateFailsOn(objs, uts, i, u, free);
    match objs[i]
    case Normal(bits) =>
      TightRetype(objs, uts, i, u, free, lim);
      if RetypeFits(uts[u], free, bits) {
        TightAdvance(objs, uts, i, u, free, lim);
        i', free', lim' := i + 1, free + Pow2(bits), bits;
      } else if free == uts[u].Size() {
        TightNext(objs, uts, i, u, lim);
        u', free' := u + 1, 0;
      }
    case _ => i' := i + 1;
  }

  /** The place of object `i` in untyped `u` or a later one, from a free index on. */
  predicate GoodPlace(o: CdlObject, uts: seq<Block>, u: nat, free: nat, p: Place) {
    o.Normal? ==>
      && p.At? && u <= p.ut < |uts|
      && (p.ut == u ==> free <= p.offset)
      && p.offset + Pow2(o.bits) <= uts[p.ut].Size()
      && Aligned(uts[p.ut].paddr + p.offset, o.bits)
  }

  predicate Behind(o: CdlObject, p: Place, o': CdlObject, p': Place) {
    o.Normal? && o'.Normal? && p.At? && p'.At? && p.ut == p'.ut ==> p.offset + Pow2(o.bits) <= p'.offset
  }

  /** The places the loop hands out from object `i` on. */
  predicate GoodTail(objs: seq<CdlObject>, uts: seq<Block>, i: nat, u: nat, free: nat, tail: seq<Place>) {
    && i <= |objs| && |tail| == |objs| - i
    && (forall k :: 0 <= k < |tail| ==> GoodPlace(objs[i + k], uts, u, free, tail[k]))
    && (forall k, l :: 0 <= k < l < |tail| ==> Behind(objs[i + k], tail[k], objs[i + l], tail[l]))
  }

  lemma {:induction false} GoodCons(objs: seq<CdlObject>, uts: seq<Block>, i: nat, u: nat, free: nat, next: nat,
                                    p: Place, tail: seq<Place>)
    requires i < |objs| && GoodTail(objs, uts, i + 1, u, next, tail) && free <= next
    requires GoodPlace(objs[i], uts, u, free, p)
    requires objs[i].Normal? ==> p.ut == u && p.offset + Pow2(objs[i].bits) <= next
    ensures GoodTail(objs, uts, i, u, free, [p] + tail)
  {
    var r := [p] + tail;
    forall k | 0 <= k < |r| ensures GoodPlace(objs[i + k], uts, u, free, r[k]) {
      if k > 0 { assert GoodPlace(objs[i + 1 + (k - 1)], uts, u, next, tail[k - 1]); }
    }
    forall k, l | 0 <= k < l < |r| ensures Behind(objs[i + k], r[k], objs[i + l], r[l]) {
      assert GoodPlace(objs[i + 1 + (l - 1)], uts, u, next, tail[l - 1]);
      if k > 0 { assert Behind(objs[i + 1 + (k - 1)], tail[k - 1], objs[i + 1 + (l - 1)], tail[l - 1]); }
    }
  }

  lemma {:induction false} GoodLater(objs: seq<CdlObject>, uts: seq<Block>, i: nat, u: nat, free: nat, tail: seq<Place>)
    requires GoodTail(objs, uts, i, u + 1, 0, tail)
    ensures GoodTail(objs, uts, i, u, free, tail)
  {
    forall k | 0 <= k < |tail| ensures GoodPlace(objs[i + k], uts, u, free, tail[k]) {
      assert GoodPlace(objs[i + k], uts, u + 1, 0, tail[k]);
    }
  }

  /** Whatever the order of its input, a loop that succeeds has placed every object soundly. */
  lemma {:induction false} SuccessIsSound(objs: seq<CdlObject>, uts: seq<Block>, i: nat, u: nat, free: nat)
    requires i <= |objs| && u <= |uts| && Create(objs, uts, i, u, free).Some?
    ensures GoodTail(objs, uts, i, u, free, Create(objs, uts, i, u, free).value)
    decreases |objs| - i + |uts| - u
  {
    if i < |objs| {
      match objs[i]
      case Normal(bits) =>
        if RetypeFits(uts[u], free, bits) {
          var at := RetypeOffset(uts[u], free, bits);
          var next := at + Pow2(bits);
          AlignUpExact(uts[u].paddr + free, bits);
          SuccessIsSound(objs, uts, i + 1, u, next);
          GoodCons(objs, uts, i, u, free, next, At(u, at), Create(objs, uts, i + 1, u, next).value);
        } else {
          SuccessIsSound(objs, uts, i, u + 1, 0);
          GoodLater(objs, uts, i, u, free, Create(objs, uts, i, u + 1, 0).value);
        }
      case _ =>
        SuccessIsSound(objs, uts, i + 1, u, free);
        GoodCons(objs, uts, i, u, free, free, NoMemory, Create(objs, uts, i + 1, u, free).value);
    }
  }

  lemma {:induction false} SuccessIsPlacement(objs: seq<CdlObject>, uts: seq<Block>)
    requires Create(objs, uts, 0, 0, 0).Some?
    ensures Placement(objs, uts, Create(objs, uts, 0, 0, 0).value)
  {
    SuccessIsSound(objs, uts, 0, 0, 0);
    var pl := Create(objs, uts, 0, 0, 0).value;
    forall i | 0 <= i < |objs| ensures InBlock(objs, uts, pl, i) && AlignedAt(objs, uts, pl, i) {
      assert GoodPlace(objs[0 + i], uts, 0, 0, pl[i]);
    }
    forall i, j | 0 <= i < j < |objs| ensures Disjoint(objs, pl, i, j) {
      assert Behind(objs[0 + i], pl[i], objs[0 + j], pl[j]);
    }
  }

  /**
   Greedy optimality. With at least one normal untyped, objects as ordered by `sortObjects` and
   size-aligned untypeds as ordered by `sort_untypeds`, the create loop succeeds if and only if a
   placement exists; it runs out only when not even an unaligned packing exists.
   */
  lemma {:induction false} GreedyOptimal(objs: seq<CdlObject>, uts: seq<Block>)
    requires uts != [] && DescendingNormals(objs) && DescendingBlocks(uts)
    ensures Create(objs, uts, 0, 0, 0).Some? <==> exists pl :: Placement(objs, uts, pl)
    ensures Create(objs, uts, 0, 0, 0).None? ==> forall pl :: !Packing(objs, uts, pl)
    ensures Create(objs, uts, 0, 0, 0).Some? ==> Placement(objs, uts, Create(objs, uts, 0, 0, 0).value)
  {
    var r := Create(objs, uts, 0, 0, 0);
    if r.Some? {
      SuccessIsPlacement(objs, uts);
    } else {
      var lim := Largest(objs);
      ZeroAligned(lim);
      var n, m := FailureCertified(objs, uts, 0, 0, 0, lim);
      forall pl ensures !Packing(objs, uts, pl) {
        OverfullRefutes(objs, uts, n, m, pl);
      }
    }
  }

  function Largest(objs: seq<CdlObject>): (r: nat)
    ensures forall k :: 0 <= k < |objs| && objs[k].Normal? ==> objs[k].bits <= r
  {
    if objs == [] then 0
    else
      var rest := Largest(objs[..|objs| - 1]);
      var o := objs[|objs| - 1];
      if o.Normal? && o.bits > rest then o.bits else rest
  }
}
