/**
 Which containers share a declaration in the printed caps section.
 */
module CapsGrouping {
  import opened Wrappers
  import opened IndexRanges
  import opened Caps
  import opened CapsSection
  import opened CapsRoundTrip

  /** A container that is printed: one with something in its slots. */
  predicate Shown(c: Container) {
    c.slots.Some? && c.slots.value != []
  }

  predicate SameContents(a: Container, b: Container) {
    a.id.name == b.id.name && a.slots == b.slots
  }

  /** The declaration is about the object. */
  predicate Names(d: CapDecl, o: ObjId) {
    o in RefToIds(d.name, d.ranges)
  }

  /** Only containers that are shown are named. */
  ghost predicate NamesShown(ds: seq<CapDecl>, cs: seq<Container>) {
    forall i, o :: 0 <= i < |ds| && Names(ds[i], o) ==> exists c :: c in cs && Shown(c) && c.id == o
  }

  /** All containers that are shown are named, with their own contents. */
  ghost predicate AllNamed(ds: seq<CapDecl>, cs: seq<Container>) {
    forall c :: c in cs && Shown(c) ==> HasDecl(ds, c)
  }

  ghost predicate HasDecl(ds: seq<CapDecl>, c: Container) {
    exists i :: 0 <= i < |ds| && Names(ds[i], c.id) && c.slots.Some? && ds[i].mappings == PrintSlots(c.slots.value)
  }

  /** Containers are named together if and only if they have the same name and contents. */
  ghost predicate TogetherIffSame(ds: seq<CapDecl>, cs: seq<Container>) {
    forall i, j, c, d ::
      0 <= i < |ds| && 0 <= j < |ds| && c in cs && d in cs && Names(ds[i], c.id) && Names(ds[j], d.id) ==>
        (i == j <==> SameContents(c, d))
  }

  ghost predicate Grouped(ds: seq<CapDecl>, cs: seq<Container>) {
    NamesShown(ds, cs) && AllNamed(ds, cs) && TogetherIffSame(ds, cs)
  }

  /** The declaration of the first group, in front of those of the others. */
  lemma {:induction false} FirstDecl(kinds: Kinds, cs: seq<Container>) returns (d: CapDecl)
    requires cs != [] && Shown(cs[0]) && Good(kinds, Group(cs)) && PrintCaps(Others(cs)).Some?
    requires forall c :: c in Group(cs) ==> c.id.name == cs[0].id.name
    ensures PrintCaps(cs) == Some([d] + PrintCaps(Others(cs)).value)
    ensures d.mappings == PrintSlots(cs[0].slots.value)
    ensures forall o :: Names(d, o) <==> exists c :: c in Group(cs) && c.id == o
  {
    var g := Group(cs);
    assert forall i :: 0 <= i < |g| ==> g[i] in g;
    HeaderRoundTrip(kinds, g);
    d := CapDecl(cs[0].id.name, Brackets(Ids(g)).value, PrintSlots(cs[0].slots.value));
    forall o ensures o in Ids(g) <==> exists c :: c in g && c.id == o {
      if o in Ids(g) {
        var i :| 0 <= i < |g| && Ids(g)[i] == o;
        assert g[i] in g;
      }
      if c :| c in g && c.id == o {
        var i :| 0 <= i < |g| && g[i] == c;
        assert Ids(g)[i] == o;
      }
    }
  }

  lemma {:induction false} OthersDiffer(cs: seq<Container>)
    requires cs != [] && Shown(cs[0])
    ensures forall c :: c in Others(cs) && Shown(c) ==> !SameContents(cs[0], c)
  {
    KeepExact(cs[1..], cs[0], false);
  }

  /** Declaration `d` names the group, which has one content, and the group and the others make up the list. */
  ghost predicate Divided(d: CapDecl, cs: seq<Container>, g: seq<Container>, others: seq<Container>) {
    && (forall c :: c in cs <==> c in g || c in others)
    && (forall c, e :: c in g && e in others ==> c.id != e.id)
    && (forall o :: Names(d, o) <==> exists c :: c in g && c.id == o)
    && (forall c, e :: c in others && e in others && c.id == e.id ==> c == e)
  }

  lemma {:induction false} FirstShown(d: CapDecl, ds: seq<CapDecl>, cs: seq<Container>, g: seq<Container>,
                                      others: seq<Container>, i: nat, o: ObjId)
    requires NamesShown(ds, others) && Divided(d, cs, g, others) && forall c :: c in g ==> Shown(c)
    requires i < |[d] + ds| && Names(([d] + ds)[i], o)
    ensures exists c :: c in cs && Shown(c) && c.id == o
  {
    if i == 0 {
      var c :| c in g && c.id == o;
      assert c in cs && Shown(c);
    } else {
      assert Names(ds[i - 1], o);
      var c :| c in others && Shown(c) && c.id == o;
      assert c in cs;
    }
  }

  lemma {:induction false} FirstNamed(d: CapDecl, ds: seq<CapDecl>, cs: seq<Container>, g: seq<Container>,
                                      others: seq<Container>, c: Container)
    requires AllNamed(ds, others) && Divided(d, cs, g, others) && c in cs && Shown(c)
    requires forall e :: e in g ==> Shown(e) && d.mappings == PrintSlots(e.slots.value)
    ensures HasDecl([d] + ds, c)
  {
    var all := [d] + ds;
    if c in g {
      assert Names(all[0], c.id);
    } else {
      assert HasDecl(ds, c);
      var i :| 0 <= i < |ds| && Names(ds[i], c.id) && ds[i].mappings == PrintSlots(c.slots.value);
      assert all[i + 1] == ds[i];
    }
  }

  lemma {:induction false} FirstApart(d: CapDecl, ds: seq<CapDecl>, cs: seq<Container>, g: seq<Container>,
                                      others: seq<Container>, i: nat, j: nat, c: Container, e: Container)
    requires NamesShown(ds, others) && TogetherIffSame(ds, others) && Divided(d, cs, g, others)
    requires forall x, y :: x in g && y in g ==> SameContents(x, y)
    requires forall x, y :: x in g && y in others && Shown(y) ==> !SameContents(x, y)
    requires i < |[d] + ds| && j < |[d] + ds| && c in cs && e in cs
    requires Names(([d] + ds)[i], c.id) && Names(([d] + ds)[j], e.id)
    ensures i == j <==> SameContents(c, e)
  {
    NamedIn(d, ds, cs, g, others, i, c);
    NamedIn(d, ds, cs, g, others, j, e);
    if i > 0 && j > 0 {
      assert Names(ds[i - 1], c.id) && Names(ds[j - 1], e.id);
    } else if i == 0 && j > 0 {
      assert !SameContents(c, e);
    } else if j == 0 && i > 0 {
      assert !SameContents(e, c);
    }
  }

  /** One group in front of a list that is grouped already. */
  lemma {:induction false} GroupFirst(d: CapDecl, ds: seq<CapDecl>, cs: seq<Container>, g: seq<Container>,
                                      others: seq<Container>)
    requires Grouped(ds, others) && Divided(d, cs, g, others)
    requires forall c :: c in g ==> Shown(c) && d.mappings == PrintSlots(c.slots.value)
    requires forall c, e :: c in g && e in g ==> SameContents(c, e)
    requires forall c, e :: c in g && e in others && Shown(e) ==> !SameContents(c, e)
    ensures Grouped([d] + ds, cs)
  {
    var all := [d] + ds;
    forall i, o | 0 <= i < |all| && Names(all[i], o) ensures exists c :: c in cs && Shown(c) && c.id == o {
      FirstShown(d, ds, cs, g, others, i, o);
    }
    forall c | c in cs && Shown(c) ensures HasDecl(all, c) { FirstNamed(d, ds, cs, g, others, c); }
    forall i, j, c, e |
      0 <= i < |all| && 0 <= j < |all| && c in cs && e in cs && Names(all[i], c.id) && Names(all[j], e.id)
      ensures i == j <==> SameContents(c, e)
    {
      FirstApart(d, ds, cs, g, others, i, j, c, e);
    }
  }

  /** The first declaration names the group, the others name the others that are shown. */
  lemma {:induction false} NamedIn(d: CapDecl, ds: seq<CapDecl>, cs: seq<Container>, g: seq<Container>,
                                   others: seq<Container>, i: nat, c: Container)
    requires NamesShown(ds, others) && Divided(d, cs, g, others)
    requires i < |[d] + ds| && c in cs && Names(([d] + ds)[i], c.id)
    ensures if i == 0 then c in g else c in others && Shown(c) && ([d] + ds)[i] == ds[i - 1]
  {
    if i == 0 {
      var a :| a in g && a.id == c.id;
    } else {
      assert Names(ds[i - 1], c.id);
      var a :| a in others && Shown(a) && a.id == c.id;
    }
  }

  lemma {:induction false} SameIdSame(cs: seq<Container>)
    requires Distinct(cs)
    ensures forall c, e :: c in cs && e in cs && c.id == e.id ==> c == e
  {
  }

  /**
   The printed section names every container that has something in its slots, with its contents, and nothing else. Two
   containers are named by one declaration if and only if they have the same name and the same contents.
   */
  lemma {:induction false} PrintedTogether(kinds: Kinds, cs: seq<Container>)
    requires Good(kinds, cs)
    ensures PrintCaps(cs).Some? && Grouped(PrintCaps(cs).value, cs)
    decreases |cs|
  {
    if cs == [] {
    } else if cs[0].slots.None? {
      RestApart(cs);
      GoodPart(kinds, cs, cs[1..]);
      PrintedTogether(kinds, cs[1..]);
      NotShown(PrintCaps(cs).value, cs, [cs[0]], cs[1..]);
    } else {
      Partitioned(kinds, cs);
      PrintedTogether(kinds, Others(cs));
      SameIdSame(Others(cs));
      SameIdSame(cs);
      if Shown(cs[0]) {
        var d := FirstDecl(kinds, cs);
        OthersDiffer(cs);
        GroupFirst(d, PrintCaps(Others(cs)).value, cs, Group(cs), Others(cs));
      } else {
        EmptyGroupSkipped(kinds, cs);
        NotShown(PrintCaps(cs).value, cs, Group(cs), Others(cs));
      }
    }
  }

  lemma {:induction false} EmptyGroupSkipped(kinds: Kinds, cs: seq<Container>)
    requires cs != [] && cs[0].slots == Some([])
    ensures PrintCaps(cs) == PrintCaps(Others(cs))
  {
  }

  /** Containers with nothing in their slots are left out. */
  lemma {:induction false} NotShown(ds: seq<CapDecl>, cs: seq<Container>, g: seq<Container>, others: seq<Container>)
    requires Grouped(ds, others) && (forall c :: c in cs <==> c in g || c in others) && Distinct(cs)
    requires forall c :: c in g ==> !Shown(c)
    ensures Grouped(ds, cs)
  {
    SameIdSame(cs);
    forall i, j, c, e |
      0 <= i < |ds| && 0 <= j < |ds| && c in cs && e in cs && Names(ds[i], c.id) && Names(ds[j], e.id)
      ensures i == j <==> SameContents(c, e)
    {
      var a :| a in others && Shown(a) && a.id == c.id;
      var b :| b in others && Shown(b) && b.id == e.id;
      assert a == c && b == e;
    }
  }
}
