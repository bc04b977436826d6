/**
 The Isabelle printer's own view of physical memory: it recomputes every object's address from the
 cover list of its untyped, in machine words, checking as it goes. It must come to the addresses at
 which the Python allocator placed the children.
 */
module PhysAddrs {
  import opened Wrappers
  import opened Arithmetic
  import opened Untypeds
  import opened BestFit
  import opened Allocation

  /** Object names; a filler untyped is named after its address. */
  datatype Id = Named(name: string) | Filler(addr: nat)

  /** What the printer knows of an object: its size and the address it was declared with, if any. */
  datatype KObject = KObject(sizeBits: nat, paddr: Option<nat>)

  datatype Error = UnknownObject | WrongPaddr | Unaligned | OutsideUntyped

  datatype Either<+E, +T> = Left(error: E) | Right(value: T)

  /** A value in a machine word of `w` bits. */
  function Word(x: nat, w: nat): (r: nat)
    ensures r < Pow2(w)
  {
    if x < Pow2(w) then x else Word(x - Pow2(w), w)
  }

  lemma {:induction false} WordIsModulo(x: nat, w: nat)
    ensures Word(x, w) == x % Pow2(w)
    decreases x
  {
    if x < Pow2(w) {
      DivModUnique(x, Pow2(w), 0, x);
    } else {
      WordIsModulo(x - Pow2(w), w);
      var q, r := (x - Pow2(w)) / Pow2(w), (x - Pow2(w)) % Pow2(w);
      assert x == (q + 1) * Pow2(w) + r;
      DivModUnique(x, Pow2(w), q + 1, r);
    }
  }

  predicate CheckEqPaddr(obj: KObject, p: nat) {
    obj.paddr.None? || p == obj.paddr.value
  }

  /** One `alloc1`: the address after the object, or the reason it cannot be there. */
  function Alloc1(objs: map<Id, KObject>, w: nat, utEnd: nat, addr: nat, id: Id): Either<Error, nat>
    requires id in objs ==> objs[id].sizeBits < w
  {
    if id !in objs then Left(UnknownObject)
    else
      var objSize := Word(Pow2(objs[id].sizeBits), w);
      var next := Word(addr + objSize, w);
      if !CheckEqPaddr(objs[id], addr) then Left(WrongPaddr)
      else if !Aligned(addr, objs[id].sizeBits) then Left(Unaligned)
      else if next > utEnd then Left(OutsideUntyped)
      else Right(next)
  }

  /** `untypedCoverToPaddrs`, accumulating the address through the cover list. */
  function CoverToPaddrs(objs: map<Id, KObject>, w: nat, utEnd: nat, addr: nat,
                         cover: seq<Id>): Either<Error, seq<(Id, nat)>>
    requires forall id | id in objs :: objs[id].sizeBits < w
    decreases |cover|
  {
    if cover == [] then Right([])
    else
      match Alloc1(objs, w, utEnd, addr, cover[0])
      case Left(e) => Left(e)
      case Right(next) =>
        match CoverToPaddrs(objs, w, utEnd, next, cover[1..])
        case Left(e) => Left(e)
        case Right(rest) => Right([(cover[0], addr)] + rest)
  }

  function UntypedCoverToPaddrs(objs: map<Id, KObject>, w: nat, utPaddr: nat, utSizeBits: nat,
                                cover: seq<Id>): Either<Error, seq<(Id, nat)>>
    requires forall id | id in objs :: objs[id].sizeBits < w
  {
    CoverToPaddrs(objs, w, Word(utPaddr + Word(Pow2(utSizeBits), w), w), utPaddr, cover)
  }

  // ----- the allocator's children as a cover list -----

  function IdOf(c: Child): Id {
    match c
    case Allocated(o) => Named(o.name)
    case Placeholder(a, _) => Filler(a)
  }

  function DeclOf(c: Child): KObject {
    match c
    case Allocated(o) => KObject(o.sizeBits, o.paddr)
    case Placeholder(a, b) => KObject(b, Some(a))
  }

  function CoverOf(cs: seq<Child>): (ids: seq<Id>)
    ensures |ids| == |cs| && forall i :: 0 <= i < |cs| ==> ids[i] == IdOf(cs[i])
  {
    seq(|cs|, i requires 0 <= i < |cs| => IdOf(cs[i]))
  }

  /** Each child from `i` on, with the address at which the allocator placed it. */
  function AddressesFrom(u: Ut, i: nat): (r: seq<(Id, nat)>)
    requires i <= |u.children|
    ensures |r| == |u.children| - i
    ensures forall j :: 0 <= j < |r| ==> r[j] == (IdOf(u.children[i + j]), u.ChildAddr(i + j))
    decreases |u.children| - i
  {
    if i == |u.children| then [] else [(IdOf(u.children[i]), u.ChildAddr(i))] + AddressesFrom(u, i + 1)
  }

  /** The object table lists every child with the size and address it was declared with. */
  predicate Lists(objs: map<Id, KObject>, cs: seq<Child>) {
    forall i :: 0 <= i < |cs| ==> IdOf(cs[i]) in objs && objs[IdOf(cs[i])] == DeclOf(cs[i])
  }

  /** A child declared at address 0 lies there. */
  predicate ZeroPaddrAtZero(u: Ut, j: nat)
    requires j < |u.children|
  {
    u.children[j].Allocated? && u.children[j].obj.paddr == Some(0) ==> u.ChildAddr(j) == 0
  }

  /**
   An object declared at address 0 counts as unpinned in the Python queue, yet is printed with its
   address; the printer accepts it only where it really lies at 0.
   */
  predicate ZeroPaddrsAtZero(u: Ut) {
    forall i | 0 <= i < |u.children| :: ZeroPaddrAtZero(u, i)
  }

  /** The end of the untyped is representable, or never compared with anything but itself. */
  predicate EndRepresentable(u: Ut, w: nat) {
    u.End() < Pow2(w) || |u.children| == 0 || (|u.children| == 1 && ChildBits(u.children[0]) == u.sizeBits)
  }

  /** In a sound layout the only thing that can go wrong for a child is its declared address. */
  lemma {:induction false} Alloc1Accepts(u: Ut, objs: map<Id, KObject>, w: nat, i: nat)
    requires u.Laid() && i < |u.children| && u.End() < Pow2(w)
    requires Lists(objs, u.children) && forall id | id in objs :: objs[id].sizeBits < w
    ensures Alloc1(objs, w, u.End(), u.ChildAddr(i), IdOf(u.children[i]))
         == if CheckEqPaddr(DeclOf(u.children[i]), u.ChildAddr(i)) then Right(u.ChildAddr(i + 1)) else Left(WrongPaddr)
    ensures CheckEqPaddr(DeclOf(u.children[i]), u.ChildAddr(i)) <==>
            (u.children[i].Allocated? && u.children[i].obj.paddr == Some(0) ==> u.ChildAddr(i) == 0)
  {
    assert u.ChildPlaced(i);
    assert u.children[..i + 1][..i] == u.children[..i];
    assert u.ChildAddr(i + 1) == u.ChildAddr(i) + ChildSize(u.children[i]);
  }

  lemma {:induction false} CoverStep(objs: map<Id, KObject>, w: nat, utEnd: nat, addr: nat, cover: seq<Id>)
    requires (forall id | id in objs :: objs[id].sizeBits < w) && cover != []
    ensures var next := Alloc1(objs, w, utEnd, addr, cover[0]);
            if next.Left? then CoverToPaddrs(objs, w, utEnd, addr, cover).Left?
            else
              var rest := CoverToPaddrs(objs, w, utEnd, next.value, cover[1..]);
              if rest.Left? then CoverToPaddrs(objs, w, utEnd, addr, cover).Left?
              else CoverToPaddrs(objs, w, utEnd, addr, cover) == Right([(cover[0], addr)] + rest.value)
  {
  }

  /** From child `i` on the printer accepts exactly when the two conditions hold for what is left. */
  lemma {:induction false} CoverFrom(u: Ut, objs: map<Id, KObject>, w: nat, i: nat)
    requires u.Laid() && i <= |u.children| && u.End() < Pow2(w)
    requires Lists(objs, u.children) && forall id | id in objs :: objs[id].sizeBits < w
    ensures var r := CoverToPaddrs(objs, w, u.End(), u.ChildAddr(i), CoverOf(u.children)[i..]);
            && (r.Right? <==> forall j | i <= j < |u.children| :: ZeroPaddrAtZero(u, j))
            && (r.Right? ==> r.value == AddressesFrom(u, i))
    decreases |u.children| - i
  {
    if i < |u.children| {
      var cover := CoverOf(u.children);
      assert cover[i..][0] == IdOf(u.children[i]) && cover[i..][1..] == cover[i + 1..];
      Alloc1Accepts(u, objs, w, i);
      CoverStep(objs, w, u.End(), u.ChildAddr(i), cover[i..]);
      CoverFrom(u, objs, w, i + 1);
      assert ZeroPaddrAtZero(u, i) <==> CheckEqPaddr(DeclOf(u.children[i]), u.ChildAddr(i));
    }
  }

  /**
   Both views agree: for a sound layout the printer never rejects a cover list and assigns each child
   the very address at which the allocator placed it -- if and only if every object declared at
   address 0 lies there, and the untyped does not end at the very top of the address space with its
   end being compared.
   */
  lemma {:induction false} ViewsAgree(u: Ut, objs: map<Id, KObject>, w: nat)
    requires u.Laid() && u.End() <= Pow2(w) && u.sizeBits < w
    requires Lists(objs, u.children) && forall id | id in objs :: objs[id].sizeBits < w
    ensures var r := UntypedCoverToPaddrs(objs, w, u.paddr, u.sizeBits, CoverOf(u.children));
            && (r.Right? <==> ZeroPaddrsAtZero(u) && EndRepresentable(u, w))
            && (r.Right? ==> r.value == AddressesFrom(u, 0))
  {
    Pow2Monotone(u.sizeBits, w);
    assert u.ChildAddr(0) == u.paddr;
    if u.End() < Pow2(w) {
      CoverFrom(u, objs, w, 0);
      assert CoverOf(u.children)[0..] == CoverOf(u.children);
    } else if u.children != [] {
      assert Word(u.End(), w) == 0;
      TopOfMemory(u, objs, w);
    }
  }

  /** A cover list is refused for the reason for which its first child is. */
  lemma {:induction false} FirstRefused(objs: map<Id, KObject>, w: nat, utEnd: nat, addr: nat, cover: seq<Id>,
                                        why: Error)
    requires (forall id | id in objs :: objs[id].sizeBits < w) && cover != []
    requires Alloc1(objs, w, utEnd, addr, cover[0]) == Left(why)
    ensures CoverToPaddrs(objs, w, utEnd, addr, cover) == Left(why)
  {
  }

  /** An object declared at address 0 that the allocator has put at 4 is refused. */
  lemma {:induction false} ZeroPaddrRefused(u: Ut, objs: map<Id, KObject>)
    requires u == Ut("u", 2, 4, 4, [Allocated(Object("a", 2, Some(0)))])
             && objs == map[Named("a") := KObject(2, Some(0))]
    ensures u.Laid() && Lists(objs, u.children)
    ensures UntypedCoverToPaddrs(objs, 8, u.paddr, u.sizeBits, CoverOf(u.children)) == Left(WrongPaddr)
  {
    SmallWords();
    OneChild(u, 2);
    var utEnd := Word(u.paddr + Word(Pow2(u.sizeBits), 8), 8);
    assert !CheckEqPaddr(objs[Named("a")], 4);
    FirstRefused(objs, 8, utEnd, 4, CoverOf(u.children), WrongPaddr);
  }

  lemma {:induction false} OneChild(u: Ut, bits: nat)
    requires |u.children| == 1 && ChildBits(u.children[0]) == u.sizeBits == bits && u.watermark == Pow2(bits)
    requires Aligned(u.paddr, bits) && u.children[0].Allocated? && !Pinned(u.children[0].obj)
    ensures u.Laid()
  {
    assert u.children[..0] == [];
    assert u.ChildPlaced(0);
  }

  lemma {:induction false} TwoChildren(u: Ut, bits: nat)
    requires |u.children| == 2 && ChildBits(u.children[0]) == ChildBits(u.children[1]) == bits && u.sizeBits == bits + 1
    requires u.watermark == Pow2(u.sizeBits) && Aligned(u.paddr, u.sizeBits)
    requires forall i :: 0 <= i < 2 ==> u.children[i].Allocated? && !Pinned(u.children[i].obj)
    ensures u.Laid()
  {
    assert u.children[..0] == [] && u.children[..1] == [u.children[0]] && [u.children[0]][..0] == [];
    AlignedDown(u.paddr, u.sizeBits);
    Pow2Aligned(bits, bits);
    AlignedAdd(u.paddr, Pow2(bits), bits);
    assert Span(u.children[..1]) == Pow2(bits);
    assert u.ChildPlaced(0) && u.ChildPlaced(1);
  }

  /** An untyped that ends at `2^w` has a first child smaller than itself refused, although all children lie inside. */
  lemma {:induction false} SmallFirstRefused(u: Ut, objs: map<Id, KObject>, w: nat)
    requires u.Laid() && u.End() == Pow2(w) && u.sizeBits < w && u.children != []
    requires Lists(objs, u.children) && forall id | id in objs :: objs[id].sizeBits < w
    requires ChildBits(u.children[0]) < u.sizeBits && CheckEqPaddr(DeclOf(u.children[0]), u.paddr)
    ensures UntypedCoverToPaddrs(objs, w, u.paddr, u.sizeBits, CoverOf(u.children)) == Left(OutsideUntyped)
  {
    var c := u.children[0];
    assert u.ChildPlaced(0) && u.ChildAddr(0) == u.paddr;
    Pow2Monotone(u.sizeBits, w);
    Pow2Monotone(ChildBits(c), u.sizeBits);
    assert Word(Pow2(w), w) == 0;
    assert Word(u.paddr + ChildSize(c), w) == u.paddr + ChildSize(c) > 0;
    FirstRefused(objs, w, 0, u.paddr, CoverOf(u.children), OutsideUntyped);
  }

  /** In words of any width, the upper half of memory as an untyped filled with two objects is refused. */
  lemma {:induction false} TopOfMemoryRefused(u: Ut, objs: map<Id, KObject>, w: nat)
    requires w >= 2
    requires u == Ut("u", w - 1, Pow2(w - 1), Pow2(w - 1),
                     [Allocated(Object("a", w - 2, None)), Allocated(Object("b", w - 2, None))])
    requires objs == map[Named("a") := KObject(w - 2, None), Named("b") := KObject(w - 2, None)]
    ensures u.Laid() && Lists(objs, u.children) && u.End() == Pow2(w)
    ensures UntypedCoverToPaddrs(objs, w, u.paddr, u.sizeBits, CoverOf(u.children)) == Left(OutsideUntyped)
  {
    Pow2Aligned(w - 1, w - 1);
    TwoChildren(u, w - 2);
    SmallFirstRefused(u, objs, w);
  }

  lemma {:induction false} SmallWords()
    ensures Pow2(2) == 4 && Aligned(4, 2)
  {
    assert Pow2(2) == 4;
  }

  /** An untyped that ends at `2^w`: its end wraps to 0, and only a single child as large as itself passes. */
  lemma {:induction false} TopOfMemory(u: Ut, objs: map<Id, KObject>, w: nat)
    requires u.Laid() && u.End() == Pow2(w) && u.sizeBits < w && u.children != []
    requires Lists(objs, u.children) && forall id | id in objs :: objs[id].sizeBits < w
    ensures var r := CoverToPaddrs(objs, w, 0, u.paddr, CoverOf(u.children));
            && (r.Right? <==> ZeroPaddrsAtZero(u) && |u.children| == 1 && ChildBits(u.children[0]) == u.sizeBits)
            && (r.Right? ==> r.value == AddressesFrom(u, 0))
  {
    var c := u.children[0];
    assert u.ChildPlaced(0) && u.ChildAddr(0) == u.paddr;
    if ChildBits(c) > u.sizeBits { Pow2Monotone(u.sizeBits, ChildBits(c)); }
    Pow2Monotone(ChildBits(c), w);
    if ChildBits(c) < u.sizeBits {
      Pow2Monotone(ChildBits(c), u.sizeBits);
      assert Word(u.paddr + ChildSize(c), w) == u.paddr + ChildSize(c) > 0;
      assert Alloc1(objs, w, 0, u.paddr, IdOf(c)).Left?;
    } else {
      OnlyChild(u);
      WholeChild(u, objs, w);
    }
  }

  lemma {:induction false} WholeChild(u: Ut, objs: map<Id, KObject>, w: nat)
    requires u.Laid() && u.End() == Pow2(w) && |u.children| == 1 && ChildBits(u.children[0]) == u.sizeBits < w
    requires Lists(objs, u.children) && forall id | id in objs :: objs[id].sizeBits < w
    ensures u.ChildAddr(0) == u.paddr
    ensures CoverToPaddrs(objs, w, 0, u.paddr, CoverOf(u.children))
         == if ZeroPaddrsAtZero(u) then Right(AddressesFrom(u, 0)) else Left(WrongPaddr)
  {
    var c, cover := u.children[0], CoverOf(u.children);
    assert u.ChildPlaced(0) && u.ChildAddr(0) == u.paddr;
    Pow2Monotone(u.sizeBits, w);
    assert Word(u.Size(), w) == u.Size() && Word(Pow2(w), w) == 0;
    assert Alloc1(objs, w, 0, u.paddr, IdOf(c))
           == if CheckEqPaddr(DeclOf(c), u.paddr) then Right(0) else Left(WrongPaddr);
    assert ZeroPaddrsAtZero(u) <==> ZeroPaddrAtZero(u, 0);
    assert cover == [IdOf(c)];
    assert AddressesFrom(u, 0) == [(IdOf(c), u.paddr)];
  }

  lemma {:induction false} OnlyChild(u: Ut)
    requires u.Laid() && u.children != [] && ChildBits(u.children[0]) == u.sizeBits
    ensures |u.children| == 1
  {
    assert u.children[..|u.children|] == u.children;
    SpanPrefix(u.children, 0, 1);
    if |u.children| > 1 {
      SpanPrefix(u.children, 1, 2);
      SpanPrefix(u.children, 2, |u.children|);
    }
  }

  // ----- whole specs -----

  /** `Map.fromList`: a later entry replaces an earlier one. */
  function FromList(pairs: seq<(Id, nat)>): map<Id, nat>
    decreases |pairs|
  {
    if pairs == [] then map[]
    else FromList(pairs[..|pairs| - 1])[pairs[|pairs| - 1].0 := pairs[|pairs| - 1].1]
  }

  lemma {:induction false} FromListKeys(pairs: seq<(Id, nat)>, id: Id)
    ensures id in FromList(pairs) <==> exists i :: 0 <= i < |pairs| && pairs[i].0 == id
    decreases |pairs|
  {
    if pairs != [] {
      FromListKeys(pairs[..|pairs| - 1], id);
      if id in FromList(pairs[..|pairs| - 1]) {
        var i :| 0 <= i < |pairs| - 1 && pairs[..|pairs| - 1][i].0 == id;
        assert pairs[i].0 == id;
      }
    }
  }

  lemma {:induction false} FromListAt(pairs: seq<(Id, nat)>, i: nat)
    requires i < |pairs| && forall j :: i < j < |pairs| ==> pairs[j].0 != pairs[i].0
    ensures pairs[i].0 in FromList(pairs) && FromList(pairs)[pairs[i].0] == pairs[i].1
    decreases |pairs|
  {
    if i < |pairs| - 1 { FromListAt(pairs[..|pairs| - 1], i); }
  }

  /** `getPhysAddrs`: the union over all covers, each with its untyped's own address; earlier entries win. */
  function GetPhysAddrs(objs: map<Id, KObject>, w: nat, uts: seq<Tagged>): Either<Error, map<Id, nat>>
    requires forall id | id in objs :: objs[id].sizeBits < w
    decreases |uts|
  {
    if uts == [] then Right(map[])
    else
      var u := uts[0].ut;
      match UntypedCoverToPaddrs(objs, w, u.paddr, u.sizeBits, CoverOf(u.children))
      case Left(e) => Left(e)
      case Right(pairs) =>
        match GetPhysAddrs(objs, w, uts[1..])
        case Left(e) => Left(e)
        case Right(rest) => Right(rest + FromList(pairs)[Named(u.name) := u.paddr])
  }

  /** No two children of the untypeds, and no untyped and child, go by the same name. */
  predicate DistinctIds(uts: seq<Tagged>) {
    && (forall i, k, l | 0 <= i < |uts| && 0 <= k < l < |uts[i].ut.children| ::
          IdOf(uts[i].ut.children[k]) != IdOf(uts[i].ut.children[l]))
    && (forall i, j, k, l | 0 <= i < j < |uts| && 0 <= k < |uts[i].ut.children| && 0 <= l < |uts[j].ut.children| ::
          IdOf(uts[i].ut.children[k]) != IdOf(uts[j].ut.children[l]))
    && (forall i, j, l | 0 <= i < |uts| && 0 <= j < |uts| && 0 <= l < |uts[j].ut.children| ::
          Named(uts[i].ut.name) != IdOf(uts[j].ut.children[l]))
    && (forall i, j | 0 <= i < j < |uts| :: uts[i].ut.name != uts[j].ut.name)
  }

  predicate Printable(u: Ut, objs: map<Id, KObject>, w: nat) {
    u.Laid() && u.End() <= Pow2(w) && u.sizeBits < w && Lists(objs, u.children)
  }

  /** What `getPhysAddrs` should find for untyped `u`. */
  ghost predicate Found(m: map<Id, nat>, u: Ut) {
    && Named(u.name) in m && m[Named(u.name)] == u.paddr
    && forall k | 0 <= k < |u.children| :: IdOf(u.children[k]) in m && m[IdOf(u.children[k])] == u.ChildAddr(k)
  }

  /** The map built from one cover. */
  function OneCover(u: Ut): map<Id, nat> {
    FromList(AddressesFrom(u, 0))[Named(u.name) := u.paddr]
  }

  lemma {:induction false} OneCoverFinds(u: Ut)
    requires DistinctIds([Tagged(u, false)])
    ensures Found(OneCover(u), u)
    ensures forall id :: id in OneCover(u) <==> id == Named(u.name) || HasChildId(u, id)
  {
    var pairs := AddressesFrom(u, 0);
    assert [Tagged(u, false)][0].ut == u;
    forall k | 0 <= k < |u.children|
      ensures IdOf(u.children[k]) in OneCover(u) && OneCover(u)[IdOf(u.children[k])] == u.ChildAddr(k)
    {
      assert pairs[k] == (IdOf(u.children[k]), u.ChildAddr(k));
      FromListAt(pairs, k);
    }
    forall id ensures id in OneCover(u) <==> id == Named(u.name) || HasChildId(u, id) {
      OneCoverKeys(u, id);
    }
  }

  ghost predicate HasChildId(u: Ut, id: Id) {
    exists k :: 0 <= k < |u.children| && id == IdOf(u.children[k])
  }

  lemma {:induction false} OneCoverKeys(u: Ut, id: Id)
    ensures id in OneCover(u) <==> id == Named(u.name) || HasChildId(u, id)
  {
    var pairs := AddressesFrom(u, 0);
    FromListKeys(pairs, id);
    if HasChildId(u, id) {
      var k :| 0 <= k < |u.children| && id == IdOf(u.children[k]);
      assert pairs[k].0 == id;
    }
  }

  /**
   Over a whole spec: `getPhysAddrs` succeeds exactly when every untyped meets the two conditions, and
   then every untyped and every child has the address at which the allocator put it.
   */
  lemma {:induction false} AllAddressesAgree(objs: map<Id, KObject>, w: nat, uts: seq<Tagged>)
    requires forall id | id in objs :: objs[id].sizeBits < w
    requires DistinctIds(uts) && forall i :: 0 <= i < |uts| ==> Printable(uts[i].ut, objs, w)
    ensures var r := GetPhysAddrs(objs, w, uts);
            && (r.Right? <==>
                 forall i :: 0 <= i < |uts| ==> ZeroPaddrsAtZero(uts[i].ut) && EndRepresentable(uts[i].ut, w))
            && (r.Right? ==> forall i :: 0 <= i < |uts| ==> Found(r.value, uts[i].ut))
    decreases |uts|
  {
    if uts != [] {
      var rest := uts[1..];
      DistinctTail(uts);
      assert forall i :: 0 < i < |uts| ==> uts[i] == rest[i - 1];
      AllAddressesAgree(objs, w, rest);
      FirstCover(objs, w, uts);
      AllAccepted(uts, w);
      if GetPhysAddrs(objs, w, uts).Right? { UnionFinds(GetPhysAddrs(objs, w, rest).value, uts); }
    }
  }

  lemma {:induction false} AllAccepted(uts: seq<Tagged>, w: nat)
    requires uts != []
    ensures (forall i :: 0 <= i < |uts| ==> ZeroPaddrsAtZero(uts[i].ut) && EndRepresentable(uts[i].ut, w))
       <==> ZeroPaddrsAtZero(uts[0].ut) && EndRepresentable(uts[0].ut, w)
            && forall i :: 0 <= i < |uts[1..]| ==>
                 ZeroPaddrsAtZero(uts[1..][i].ut) && EndRepresentable(uts[1..][i].ut, w)
  {
    assert uts == [uts[0]] + uts[1..];
  }

  /** One untyped and the rest of the spec. */
  lemma {:induction false} FirstCover(objs: map<Id, KObject>, w: nat, uts: seq<Tagged>)
    requires forall id | id in objs :: objs[id].sizeBits < w
    requires uts != [] && Printable(uts[0].ut, objs, w)
    ensures var r, rest := GetPhysAddrs(objs, w, uts), GetPhysAddrs(objs, w, uts[1..]);
            && (r.Right? <==> ZeroPaddrsAtZero(uts[0].ut) && EndRepresentable(uts[0].ut, w) && rest.Right?)
            && (r.Right? ==> r.value == rest.value + OneCover(uts[0].ut))
  {
    ViewsAgree(uts[0].ut, objs, w);
  }

  lemma {:induction false} UnionFinds(rest: map<Id, nat>, uts: seq<Tagged>)
    requires uts != [] && DistinctIds(uts) && forall i :: 0 < i < |uts| ==> Found(rest, uts[i].ut)
    ensures forall i :: 0 <= i < |uts| ==> Found(rest + OneCover(uts[0].ut), uts[i].ut)
  {
    DistinctTail(uts);
    OneCoverFinds(uts[0].ut);
    forall i | 0 < i < |uts| ensures Found(rest + OneCover(uts[0].ut), uts[i].ut) {
      UnionKeeps(rest, uts, i);
    }
  }

  lemma {:induction false} DistinctTail(uts: seq<Tagged>)
    requires DistinctIds(uts) && uts != []
    ensures DistinctIds(uts[1..]) && DistinctIds([Tagged(uts[0].ut, false)])
  {
    assert forall i :: 0 <= i < |uts| - 1 ==> uts[1..][i] == uts[i + 1];
  }

  lemma {:induction false} UnionKeeps(rest: map<Id, nat>, uts: seq<Tagged>, i: nat)
    requires DistinctIds(uts) && 0 < i < |uts| && Found(rest, uts[i].ut)
    ensures Found(rest + OneCover(uts[0].ut), uts[i].ut)
  {
    var u, v := uts[0].ut, uts[i].ut;
    DistinctTail(uts);
    OneCoverFinds(u);
    assert Named(v.name) !in OneCover(u);
    forall k | 0 <= k < |v.children| ensures IdOf(v.children[k]) !in OneCover(u) {}
  }

  // ----- the names of what allocate places -----

  lemma {:induction false} HeldAt(ts: seq<Tagged>, i: nat, o: Object)
    requires i < |ts|
    ensures HeldAll(ts, o) >= Held(ts[i].ut, o)
    ensures forall j :: i < j < |ts| ==> HeldAll(ts, o) >= Held(ts[i].ut, o) + Held(ts[j].ut, o)
    decreases |ts|
  {
    if i > 0 {
      HeldAt(ts[1..], i - 1, o);
      assert forall j :: i < j < |ts| ==> ts[j] == ts[1..][j - 1];
    } else {
      forall j | 0 < j < |ts| ensures HeldAll(ts, o) >= Held(ts[0].ut, o) + Held(ts[j].ut, o) {
        HeldAt(ts[1..], j - 1, o);
      }
    }
  }

  lemma {:induction false} CountTwice<T>(s: seq<T>, k: nat, l: nat)
    requires k < l < |s| && s[k] == s[l]
    ensures multiset(s)[s[k]] >= 2
  {
    assert s == s[..l] + s[l..];
    assert s[..l][k] in multiset(s[..l]) && s[l..][0] in multiset(s[l..]);
  }

  lemma {:induction false} CountOnce<T(!new)>(s: seq<T>)
    requires forall i, j :: 0 <= i < j < |s| ==> s[i] != s[j]
    ensures forall x :: multiset(s)[x] <= 1
    decreases |s|
  {
    if s != [] {
      var n := |s| - 1;
      CountOnce(s[..n]);
      assert s == s[..n] + [s[n]];
      forall x ensures multiset(s)[x] <= 1 {
        if x == s[n] { assert s[n] !in s[..n]; }
      }
    }
  }

  predicate DistinctNames(objs: seq<Object>) {
    forall a, b :: 0 <= a < b < |objs| ==> objs[a].name != objs[b].name
  }

  /** On success from fresh untypeds, an object lies in one place only, and only objects of the spec are placed. */
  lemma {:induction false} PlacedOnce(objs: seq<Object>, supply: seq<Tagged>, o: Object)
    requires AllReady(supply) && Allocate(objs, supply).failure.None?
    requires DistinctNames(objs) && forall i :: 0 <= i < |supply| ==> supply[i].ut.Fresh()
    ensures HeldAll(Allocate(objs, supply).uts, o) == if o in objs && Sized(o) then 1 else 0
  {
    AllocateConserves(objs, supply, o);
    NothingHeld(supply, o);
    CountOnce(objs);
    if o in objs { assert o in multiset(objs); }
  }

  /**
   A run of `allocate` that starts from fresh, address-ordered, disjoint untypeds with names of their own, and
   succeeds.
   */
  predicate CleanRun(objs: seq<Object>, supply: seq<Tagged>) {
    && AllReady(supply) && Allocate(objs, supply).failure.None?
    && DistinctNames(objs)
    && (forall i :: 0 <= i < |supply| ==> supply[i].ut.Fresh())
    && (forall i, j :: 0 <= i < j < |supply| ==>
            supply[i].ut.End() <= supply[j].ut.paddr && supply[i].ut.name != supply[j].ut.name)
    && (forall i, a :: 0 <= i < |supply| && 0 <= a < |objs| ==> supply[i].ut.name != objs[a].name)
  }

  lemma {:induction false} PlacedIsListed(objs: seq<Object>, supply: seq<Tagged>, i: nat, k: nat)
    requires CleanRun(objs, supply)
    requires var uts := Allocate(objs, supply).uts;
             i < |uts| && k < |uts[i].ut.children| && uts[i].ut.children[k].Allocated?
    ensures Allocate(objs, supply).uts[i].ut.children[k].obj in objs
  {
    var uts := Allocate(objs, supply).uts;
    var c := uts[i].ut.children[k];
    assert c in multiset(uts[i].ut.children);
    HeldAt(uts, i, c.obj);
    PlacedOnce(objs, supply, c.obj);
  }

  lemma {:induction false} ChildrenNamedApart(objs: seq<Object>, supply: seq<Tagged>, i: nat, k: nat, j: nat, l: nat)
    requires CleanRun(objs, supply)
    requires var uts := Allocate(objs, supply).uts;
             && i < |uts| && k < |uts[i].ut.children| && j < |uts| && l < |uts[j].ut.children|
             && (i < j || (i == j && k < l))
    ensures var uts := Allocate(objs, supply).uts;
            IdOf(uts[i].ut.children[k]) != IdOf(uts[j].ut.children[l])
  {
    var uts := Allocate(objs, supply).uts;
    var c, d := uts[i].ut.children[k], uts[j].ut.children[l];
    AllocateLayout(objs, supply);
    assert Ready(uts[i]) && Ready(uts[j]);
    assert uts[i].ut.ChildPlaced(k) && uts[j].ut.ChildPlaced(l);
    AllocateDisjoint(objs, supply, i, k, j, l);
    if c.Allocated? && d.Allocated? && c.obj.name == d.obj.name {
      PlacedIsListed(objs, supply, i, k);
      PlacedIsListed(objs, supply, j, l);
      var a :| 0 <= a < |objs| && objs[a] == c.obj;
      var b :| 0 <= b < |objs| && objs[b] == d.obj;
      assert a == b;
      HeldAt(uts, i, c.obj);
      assert c in multiset(uts[i].ut.children) && d in multiset(uts[j].ut.children);
      if i == j { CountTwice(uts[i].ut.children, k, l); }
      assert HeldAll(uts, c.obj) >= 2;
      PlacedOnce(objs, supply, c.obj);
    }
  }

  /** Every successful run leaves children, and untypeds, with names of their own. */
  lemma {:induction false} RunNamedApart(objs: seq<Object>, supply: seq<Tagged>)
    requires CleanRun(objs, supply)
    ensures DistinctIds(Allocate(objs, supply).uts)
  {
    var uts := Allocate(objs, supply).uts;
    AllocateLayout(objs, supply);
    forall i, k, l | 0 <= i < |uts| && 0 <= k < l < |uts[i].ut.children|
      ensures IdOf(uts[i].ut.children[k]) != IdOf(uts[i].ut.children[l])
    {
      ChildrenNamedApart(objs, supply, i, k, i, l);
    }
    forall i, j, k, l | 0 <= i < j < |uts| && 0 <= k < |uts[i].ut.children| && 0 <= l < |uts[j].ut.children|
      ensures IdOf(uts[i].ut.children[k]) != IdOf(uts[j].ut.children[l])
    {
      ChildrenNamedApart(objs, supply, i, k, j, l);
    }
    forall i, j, l | 0 <= i < |uts| && 0 <= j < |uts| && 0 <= l < |uts[j].ut.children|
      ensures Named(uts[i].ut.name) != IdOf(uts[j].ut.children[l])
    {
      if uts[j].ut.children[l].Allocated? { PlacedIsListed(objs, supply, j, l); }
    }
  }

  /**
   The Python and the Isabelle view of a whole successful run: given the same sizes, `getPhysAddrs`
   gives every untyped and every child the address at which the allocator placed it, and it refuses
   the spec only for an object declared at address 0 that lies elsewhere, or for an untyped at the very
   top of the address space.
   */
  lemma {:induction false} AllocateAddressesAgree(objs: seq<Object>, supply: seq<Tagged>, table: map<Id, KObject>,
                                                  w: nat)
    requires CleanRun(objs, supply)
    requires forall id | id in table :: table[id].sizeBits < w
    requires forall i :: 0 <= i < |supply| ==> supply[i].ut.sizeBits < w && supply[i].ut.End() <= Pow2(w)
    requires var uts := Allocate(objs, supply).uts;
             forall i :: 0 <= i < |uts| ==> Lists(table, uts[i].ut.children)
    ensures var uts := Allocate(objs, supply).uts;
            var r := GetPhysAddrs(table, w, uts);
            && (r.Right? <==>
                 forall i :: 0 <= i < |uts| ==> ZeroPaddrsAtZero(uts[i].ut) && EndRepresentable(uts[i].ut, w))
            && (r.Right? ==> forall i :: 0 <= i < |uts| ==> Found(r.value, uts[i].ut))
  {
    var uts := Allocate(objs, supply).uts;
    AllocateLayout(objs, supply);
    RunNamedApart(objs, supply);
    forall i | 0 <= i < |uts| ensures Printable(uts[i].ut, table, w) {
      assert Ready(uts[i]) && SameUntyped(supply[i].ut, uts[i].ut);
    }
    AllAddressesAgree(table, w, uts);
  }
}
