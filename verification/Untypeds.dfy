/**
 Kernel objects as the Python tool sees them, and untyped memory as a bump allocator:
 children are appended one after the other and the watermark moves past each of them.
 */
module Untypeds {
  import opened Wrappers
  import opened Arithmetic

  /** A kernel object of a spec. `sizeBits == 0` stands for an object that has no size. */
  datatype Object = Object(name: string, sizeBits: nat, paddr: Option<nat>)

  /** The queue treats an object as pinned when its `paddr` is truthy: present and not zero. */
  predicate Pinned(o: Object) {
    o.paddr.Some? && o.paddr.value != 0
  }

  predicate Fungible(o: Object) {
    !Pinned(o) && o.sizeBits > 0
  }

  /** A child of an untyped: an object of the spec, or a filler untyped named after its address. */
  datatype Child = Allocated(obj: Object) | Placeholder(addr: nat, bits: nat)

  function ChildBits(c: Child): nat {
    match c
    case Allocated(o) => o.sizeBits
    case Placeholder(_, b) => b
  }

  function ChildSize(c: Child): nat { Pow2(ChildBits(c)) }

  /** The total number of bytes occupied by a run of children. */
  function Span(cs: seq<Child>): nat {
    if cs == [] then 0 else Span(cs[..|cs| - 1]) + ChildSize(cs[|cs| - 1])
  }

  /** The bytes of a run of children that hold objects of the spec. */
  function Payload(cs: seq<Child>): nat {
    if cs == [] then 0
    else
      var c := cs[|cs| - 1];
      Payload(cs[..|cs| - 1]) + (if c.Allocated? then ChildSize(c) else 0)
  }

  lemma {:induction false} SpanPrefix(cs: seq<Child>, i: nat, j: nat)
    requires i <= j <= |cs|
    ensures Span(cs[..i]) <= Span(cs[..j])
    ensures i < j ==> Span(cs[..i]) + ChildSize(cs[i]) <= Span(cs[..j])
    decreases j
  {
    if i < j {
      assert cs[..j][..j - 1] == cs[..j - 1];
      SpanPrefix(cs, i, j - 1);
    }
  }

  /** The state of an untyped object. */
  datatype Ut = Ut(name: string, sizeBits: nat, paddr: nat, watermark: nat, children: seq<Child>) {

    function Size(): nat { Pow2(sizeBits) }

    function End(): nat { paddr + Size() }

    function Remaining(): int { Size() - watermark }

    function WatermarkPaddr(): nat { watermark + paddr }

    function Add(c: Child): Ut {
      this.(watermark := watermark + ChildSize(c), children := children + [c])
    }

    function AddPlaceholder(bits: nat): Ut {
      Add(Placeholder(WatermarkPaddr(), bits))
    }

    predicate Fresh() { watermark == 0 && children == [] }

    /** The address at which child `i` lies: the untyped's base plus everything allocated before it. */
    function ChildAddr(i: nat): nat
      requires i <= |children|
    {
      paddr + Span(children[..i])
    }

    /** Child `i` is aligned to its own size, inside the untyped, and where its own `paddr` says. */
    predicate ChildPlaced(i: nat)
      requires i < |children|
    {
      && Aligned(ChildAddr(i), ChildBits(children[i]))
      && ChildAddr(i) + ChildSize(children[i]) <= End()
      && match children[i]
         case Allocated(o) => Pinned(o) ==> o.paddr.value == ChildAddr(i)
         case Placeholder(a, _) => a == ChildAddr(i)
    }

    predicate Laid() {
      && Aligned(paddr, sizeBits)
      && watermark == Span(children) <= Size()
      && forall i: nat :: i < |children| ==> ChildPlaced(i)
    }
  }

  lemma {:induction false} SpanAppend(cs: seq<Child>, c: Child)
    ensures Span(cs + [c]) == Span(cs) + ChildSize(c)
    ensures Payload(cs + [c]) == Payload(cs) + if c.Allocated? then ChildSize(c) else 0
  {
    assert (cs + [c])[..|cs|] == cs;
  }

  /** Adding a child that is aligned at the watermark, fits, and carries the right address keeps the layout sound. */
  lemma {:induction false} AddKeepsLaid(u: Ut, c: Child)
    requires u.Laid()
    requires Aligned(u.WatermarkPaddr(), ChildBits(c))
    requires ChildSize(c) <= u.Remaining()
    requires c.Placeholder? ==> c.addr == u.WatermarkPaddr()
    requires c.Allocated? && Pinned(c.obj) ==> c.obj.paddr.value == u.WatermarkPaddr()
    ensures u.Add(c).Laid()
  {
    var v := u.Add(c);
    SpanAppend(u.children, c);
    forall i: nat | i < |v.children| ensures v.ChildPlaced(i) {
      if i < |u.children| {
        assert v.children[..i] == u.children[..i];
        assert u.ChildPlaced(i);
      } else {
        assert v.children[..i] == u.children;
      }
    }
  }

  /** In a sound layout no two children overlap. */
  lemma {:induction false} LaidDisjoint(u: Ut, i: nat, j: nat)
    requires u.Laid() && i < j < |u.children|
    ensures u.ChildAddr(i) + ChildSize(u.children[i]) <= u.ChildAddr(j)
  {
    SpanPrefix(u.children, i, j);
  }

  /** Children of disjoint untypeds are disjoint. */
  lemma {:induction false} LaidApart(u: Ut, i: nat, v: Ut, j: nat)
    requires u.Laid() && v.Laid() && u.End() <= v.paddr
    requires i < |u.children| && j < |v.children|
    ensures u.ChildAddr(i) + ChildSize(u.children[i]) <= v.ChildAddr(j)
  {
    assert u.ChildPlaced(i);
  }

  lemma {:induction false} FreshIsLaid(u: Ut)
    requires u.Fresh() && Aligned(u.paddr, u.sizeBits)
    ensures u.Laid()
  {
  }
}
