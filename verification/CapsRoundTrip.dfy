/**
 The whole caps section: containers with the same name and contents are printed once, with their indices
 as ranges, and the elaborated section is compared with the original.
 */
module CapsRoundTrip {
  import opened Wrappers
  import opened IndexRanges
  import opened Caps
  import opened CapParams
  import opened CapsSection

  // ----- printing -----

  /** `same`: containers that are printed together. */
  predicate Same(a: Container, b: Container) {
    a.id.name == b.id.name && (a.slots.Some? && b.slots.Some? ==> a.slots.value == b.slots.value)
  }

  /** One side of the partition of a list by whether its members are printed together with `first`. */
  function Keep(cs: seq<Container>, first: Container, together: bool): (r: seq<Container>)
    ensures |r| <= |cs|
  {
    if cs == [] then []
    else (if Same(first, cs[0]) == together then [cs[0]] else []) + Keep(cs[1..], first, together)
  }

  function Ids(cs: seq<Container>): seq<ObjId> {
    seq(|cs|, i requires 0 <= i < |cs| => cs[i].id)
  }

  predicate AllNumbered(os: seq<ObjId>) {
    forall i :: 0 <= i < |os| ==> os[i].index.Some?
  }

  /** `prettyBrackets`: nothing for a single object without number, `None` for a mixture, which is an error. */
  function Brackets(os: seq<ObjId>): Option<seq<Range>> {
    if |os| == 1 && os[0].index.None? then Some([])
    else if AllNumbered(os) then Some(Compress(Numbers(os)))
    else None
  }

  function Numbers(os: seq<ObjId>): seq<nat>
    requires AllNumbered(os)
  {
    seq(|os|, i requires 0 <= i < |os| => os[i].index.value)
  }

  /** `prettyCapsList`. */
  function PrintCaps(cs: seq<Container>): Option<seq<CapDecl>>
    decreases |cs|
  {
    if cs == [] then Some([])
    else if cs[0].slots.None? then PrintCaps(cs[1..])
    else
      var rest := PrintCaps(Keep(cs[1..], cs[0], false));
      var group := [cs[0]] + Keep(cs[1..], cs[0], true);
      var lines := PrintSlots(cs[0].slots.value);
      if lines == [] then rest
      else
        match (Brackets(Ids(group)), rest)
        case (Some(ranges), Some(decls)) => Some([CapDecl(cs[0].id.name, ranges, lines)] + decls)
        case _ => None
  }

  // ----- elaborating -----

  type Model = map<ObjId, Slots>

  /** `addCap`: the container must exist and have slots. */
  function AddCap(kinds: Kinds, model: Model, o: ObjId, ms: seq<CapMapping>): Option<Model> {
    if o !in kinds then None
    else if ms == [] then Some(model)
    else if o !in model then None
    else
      match AddMappings(kinds, model[o], ms)
      case None => None
      case Some(slots) => var filled: Model := model[o := slots]; Some(filled)
  }

  function AddCaps(kinds: Kinds, model: Model, os: seq<ObjId>, ms: seq<CapMapping>): Option<Model>
    decreases |os|
  {
    if os == [] then Some(model)
    else
      match AddCap(kinds, model, os[0], ms)
      case None => None
      case Some(model') => AddCaps(kinds, model', os[1..], ms)
  }

  /** `addCapDecls`. */
  function AddDecls(kinds: Kinds, model: Model, ds: seq<CapDecl>): Option<Model>
    decreases |ds|
  {
    if ds == [] then Some(model)
    else
      match AddCaps(kinds, model, RefToIds(ds[0].name, ds[0].ranges), ds[0].mappings)
      case None => None
      case Some(model') => AddDecls(kinds, model', ds[1..])
  }

  // ----- well-formed containers -----

  predicate Distinct(cs: seq<Container>) {
    forall i, j :: 0 <= i < j < |cs| ==> cs[i].id != cs[j].id
  }

  /** A name belongs to one object or to one array, whose members all have slots or all have none. */
  predicate Alike(a: Container, b: Container) {
    a.id.name == b.id.name ==> (a.id.index.Some? <==> b.id.index.Some?) && (a.slots.Some? <==> b.slots.Some?)
  }

  predicate GoodContainer(kinds: Kinds, c: Container) {
    c.id in kinds && (c.slots.Some? ==> GoodSlots(kinds, c.slots.value))
  }

  predicate Good(kinds: Kinds, cs: seq<Container>) {
    && GoodKinds(kinds) && Distinct(cs)
    && (forall c :: c in cs ==> GoodContainer(kinds, c))
    && (forall c, d :: c in cs && d in cs ==> Alike(c, d))
  }

  lemma {:induction false} KeepExact(cs: seq<Container>, first: Container, together: bool)
    ensures forall c :: c in Keep(cs, first, together) <==> c in cs && Same(first, c) == together
    ensures Distinct(cs) ==> Distinct(Keep(cs, first, together))
    decreases |cs|
  {
    if cs != [] {
      KeepExact(cs[1..], first, together);
      assert cs == [cs[0]] + cs[1..];
      var k := Keep(cs[1..], first, together);
      if Distinct(cs) {
        assert Distinct(cs[1..]);
        forall i | 0 <= i < |k| ensures k[i].id != cs[0].id {
          assert k[i] in cs[1..];
        }
      }
    }
  }

  lemma {:induction false} GoodPart(kinds: Kinds, cs: seq<Container>, part: seq<Container>)
    requires Good(kinds, cs) && Distinct(part) && forall c :: c in part ==> c in cs
    ensures Good(kinds, part)
  {
  }

  lemma {:induction false} Unnumbered(a: Container, b: Container)
    requires Alike(a, b) && a.id.name == b.id.name && a.id.index.None?
    ensures a.id == b.id
  {
  }

  /** The printed header names exactly the containers of the group, in order. */
  lemma {:induction false} HeaderRoundTrip(kinds: Kinds, g: seq<Container>)
    requires g != [] && Good(kinds, g) && forall i :: 0 <= i < |g| ==> g[i].id.name == g[0].id.name
    ensures Brackets(Ids(g)).Some? && RefToIds(g[0].id.name, Brackets(Ids(g)).value) == Ids(g)
  {
    var os := Ids(g);
    assert forall i :: 0 <= i < |g| ==> g[i] in g && Alike(g[0], g[i]);
    if g[0].id.index.None? {
      if |g| > 1 {
        Unnumbered(g[0], g[1]);
        assert false;
      }
      assert os == [g[0].id];
    } else {
      assert AllNumbered(os);
      var ns := Numbers(os);
      RangesRoundTrip(ns);
      assert Numbered(g[0].id.name, ns) == os;
    }
  }

  // ----- the effect of a declaration -----

  ghost predicate Touched(cs: seq<Container>, o: ObjId) {
    exists c :: c in cs && c.slots.Some? && c.id == o
  }

  /** The containers hold what they are elaborated to, and everything else is as before. */
  ghost predicate Updated(kinds: Kinds, before: Model, after: Model, cs: seq<Container>) {
    && after.Keys == before.Keys
    && (forall c :: c in cs && c.slots.Some? && c.id in after ==> Elaborated(kinds, c.slots.value) == Some(after[c.id]))
    && (forall o :: o in before && !Touched(cs, o) ==> after[o] == before[o])
  }

  /** The containers exist and are still empty. */
  predicate Blank(model: Model, cs: seq<Container>) {
    forall c :: c in cs && c.slots.Some? ==> c.id in model && model[c.id] == map[]
  }

  lemma {:induction false} AddGroup(kinds: Kinds, model: Model, g: seq<Container>, xs: seq<SlotCap>)
    returns (after: Model)
    requires Good(kinds, g) && Blank(model, g) && PrintSlots(xs) != [] && forall c :: c in g ==> c.slots == Some(xs)
    requires Elaborated(kinds, xs).Some?
    ensures AddCaps(kinds, model, Ids(g), PrintSlots(xs)) == Some(after) && Updated(kinds, model, after, g)
    decreases |g|
  {
    if g == [] {
      after := model;
    } else {
      var c, rest := g[0], g[1..];
      assert c in g;
      var model' := model[c.id := Elaborated(kinds, xs).value];
      assert AddCap(kinds, model, c.id, PrintSlots(xs)) == Some(model');
      RestApart(g);
      GoodPart(kinds, g, rest);
      after := AddGroup(kinds, model', rest, xs);
      FirstOfGroup(kinds, model, model', g, PrintSlots(xs));
      UpdatedFirst(kinds, model, model', after, g, xs);
    }
  }

  lemma {:induction false} FirstOfGroup(kinds: Kinds, model: Model, model': Model, g: seq<Container>,
                                        ms: seq<CapMapping>)
    requires g != [] && AddCap(kinds, model, g[0].id, ms) == Some(model')
    ensures AddCaps(kinds, model, Ids(g), ms) == AddCaps(kinds, model', Ids(g[1..]), ms)
  {
    assert Ids(g)[0] == g[0].id && Ids(g)[1..] == Ids(g[1..]);
  }

  lemma {:induction false} RestApart(g: seq<Container>)
    requires g != [] && Distinct(g)
    ensures Distinct(g[1..]) && forall d :: d in g[1..] ==> d in g && d.id != g[0].id
  {
    forall d | d in g[1..] ensures d in g && d.id != g[0].id {
      var i :| 0 <= i < |g[1..]| && g[1..][i] == d;
      assert g[i + 1] == d;
    }
  }

  lemma {:induction false} UpdatedFirst(kinds: Kinds, model: Model, model': Model, after: Model, g: seq<Container>,
                                        xs: seq<SlotCap>)
    requires g != [] && Distinct(g) && g[0].id in model && (forall c :: c in g ==> c.slots == Some(xs))
    requires Elaborated(kinds, xs).Some? && model' == model[g[0].id := Elaborated(kinds, xs).value]
    requires Updated(kinds, model', after, g[1..])
    ensures Updated(kinds, model, after, g)
  {
    var c, rest := g[0], g[1..];
    assert g == [c] + rest;
    assert !Touched(rest, c.id);
    TouchedFirst(g);
  }

  lemma {:induction false} TouchedFirst(g: seq<Container>)
    requires g != []
    ensures g[0].slots.Some? ==> Touched(g, g[0].id)
    ensures forall o :: Touched(g[1..], o) ==> Touched(g, o)
  {
    assert g[0] in g;
    forall o | Touched(g[1..], o) ensures Touched(g, o) {
      var c :| c in g[1..] && c.slots.Some? && c.id == o;
      assert c in g;
    }
  }

  // ----- the whole section -----

  /** The group of the first container: all containers printed with it. */
  function Group(cs: seq<Container>): seq<Container>
    requires cs != []
  {
    [cs[0]] + Keep(cs[1..], cs[0], true)
  }

  function Others(cs: seq<Container>): seq<Container>
    requires cs != []
  {
    Keep(cs[1..], cs[0], false)
  }

  /** Group and others are well formed and divide the list between them. */
  lemma {:induction false} Partitioned(kinds: Kinds, cs: seq<Container>)
    requires cs != [] && Good(kinds, cs) && cs[0].slots.Some?
    ensures Good(kinds, Group(cs)) && Good(kinds, Others(cs))
    ensures forall c :: c in cs <==> c in Group(cs) || c in Others(cs)
    ensures forall c, d :: c in Group(cs) && d in Others(cs) ==> c.id != d.id
    ensures forall c :: c in Group(cs) ==> c.slots == cs[0].slots && c.id.name == cs[0].id.name
  {
    var first, rest := cs[0], cs[1..];
    RestApart(cs);
    KeepExact(rest, first, true);
    KeepExact(rest, first, false);
    var g, others := Group(cs), Others(cs);
    assert cs == [first] + rest;
    assert forall c :: c in g ==> c in cs && Same(first, c);
    assert Distinct(g);
    GoodPart(kinds, cs, g);
    GoodPart(kinds, cs, others);
    forall c | c in g ensures c.slots == first.slots { assert Alike(first, c); }
    IdsApart(cs);
  }

  lemma {:induction false} IdsApart(cs: seq<Container>)
    requires Distinct(cs)
    ensures forall c, d :: c in cs && d in cs && c.id == d.id ==> c == d
  {
  }

  lemma {:induction false} UpdatedBoth(kinds: Kinds, a: Model, b: Model, c: Model, cs: seq<Container>,
                                       g: seq<Container>, others: seq<Container>)
    requires Updated(kinds, a, b, g) && Updated(kinds, b, c, others)
    requires forall x :: x in cs <==> x in g || x in others
    requires forall x, y :: x in g && y in others ==> x.id != y.id
    ensures Updated(kinds, a, c, cs)
  {
    forall x | x in cs && x.slots.Some? && x.id in c ensures Elaborated(kinds, x.slots.value) == Some(c[x.id]) {
      if x in g { assert !Touched(others, x.id); }
    }
    forall o | o in a && !Touched(cs, o) ensures c[o] == a[o] {
      NotTouched(cs, g, o);
      NotTouched(cs, others, o);
    }
  }

  lemma {:induction false} NotTouched(cs: seq<Container>, part: seq<Container>, o: ObjId)
    requires !Touched(cs, o) && forall x :: x in part ==> x in cs
    ensures !Touched(part, o)
  {
  }

  /** A container whose slots are all empty is not printed, and needs not be. */
  lemma {:induction false} EmptyGroup(kinds: Kinds, model: Model, g: seq<Container>)
    requires Blank(model, g) && forall c :: c in g ==> c.slots == Some([])
    ensures Updated(kinds, model, model, g)
  {
    assert Elaborated(kinds, []) == Some(map[]);
  }

  /** Every container by itself can be elaborated from its printed lines. */
  ghost predicate AllElaborate(kinds: Kinds, cs: seq<Container>) {
    forall c :: c in cs && c.slots.Some? ==> Elaborated(kinds, c.slots.value).Some?
  }

  /** What printing and elaborating does to any blank model with the containers. */
  lemma {:induction false} SectionEffect(kinds: Kinds, model: Model, cs: seq<Container>) returns (after: Model)
    requires Good(kinds, cs) && Blank(model, cs)
    ensures PrintCaps(cs).Some?
    ensures !AllElaborate(kinds, cs) ==> AddDecls(kinds, model, PrintCaps(cs).value) == None
    ensures AllElaborate(kinds, cs) ==>
            AddDecls(kinds, model, PrintCaps(cs).value) == Some(after) && Updated(kinds, model, after, cs)
    decreases |cs|
  {
    if cs == [] {
      after := model;
    } else if cs[0].slots.None? {
      RestApart(cs);
      GoodPart(kinds, cs, cs[1..]);
      after := SectionEffect(kinds, model, cs[1..]);
      SkipFirst(kinds, model, after, cs);
    } else {
      Partitioned(kinds, cs);
      PrintStep(kinds, model, cs);
      ElaborateParts(kinds, cs);
      var g, others, xs := Group(cs), Others(cs), cs[0].slots.value;
      if Elaborated(kinds, xs).Some? {
        var middle := GroupEffect(kinds, model, g, xs);
        BlankAfter(kinds, model, middle, g, others);
        after := SectionEffect(kinds, middle, others);
        if AllElaborate(kinds, cs) { UpdatedBoth(kinds, model, middle, after, cs, g, others); }
      } else {
        after := SectionEffect(kinds, model, others);
        GroupFails(kinds, model, g, xs);
      }
    }
  }

  /** The declaration of the first group comes first, if it has any lines. */
  lemma {:induction false} PrintStep(kinds: Kinds, model: Model, cs: seq<Container>)
    requires cs != [] && cs[0].slots.Some? && Good(kinds, Group(cs))
    requires forall c :: c in Group(cs) ==> c.id.name == cs[0].id.name
    ensures var lines, rest := PrintSlots(cs[0].slots.value), PrintCaps(Others(cs));
            && (PrintCaps(cs).Some? <==> rest.Some?)
            && (rest.Some? && lines == [] ==> PrintCaps(cs) == rest)
            && (rest.Some? && lines != [] ==>
                  AddDecls(kinds, model, PrintCaps(cs).value)
                  == match AddCaps(kinds, model, Ids(Group(cs)), lines)
                     case None => None
                     case Some(middle) => AddDecls(kinds, middle, rest.value))
  {
    var g := Group(cs);
    assert forall i :: 0 <= i < |g| ==> g[i] in g;
    HeaderRoundTrip(kinds, g);
    var rest := PrintCaps(Others(cs));
    if rest.Some? && PrintSlots(cs[0].slots.value) != [] {
      var ds := PrintCaps(cs).value;
      assert ds[1..] == rest.value;
    }
  }

  lemma {:induction false} ElaborateParts(kinds: Kinds, cs: seq<Container>)
    requires cs != [] && cs[0].slots.Some?
    requires forall c :: c in cs <==> c in Group(cs) || c in Others(cs)
    requires forall c :: c in Group(cs) ==> c.slots == cs[0].slots
    ensures AllElaborate(kinds, cs) <==> Elaborated(kinds, cs[0].slots.value).Some? && AllElaborate(kinds, Others(cs))
  {
    assert Group(cs)[0] == cs[0] && cs[0] in Group(cs);
  }

  lemma {:induction false} SkipFirst(kinds: Kinds, model: Model, after: Model, cs: seq<Container>)
    requires cs != [] && cs[0].slots.None?
    ensures AllElaborate(kinds, cs) <==> AllElaborate(kinds, cs[1..])
    ensures Updated(kinds, model, after, cs[1..]) ==> Updated(kinds, model, after, cs)
  {
    assert cs == [cs[0]] + cs[1..];
    forall o | !Touched(cs, o) ensures !Touched(cs[1..], o) { NotTouched(cs, cs[1..], o); }
  }

  lemma {:induction false} GroupEffect(kinds: Kinds, model: Model, g: seq<Container>, xs: seq<SlotCap>)
    returns (after: Model)
    requires Good(kinds, g) && Blank(model, g) && forall c :: c in g ==> c.slots == Some(xs)
    requires Elaborated(kinds, xs).Some?
    ensures Updated(kinds, model, after, g)
    ensures if PrintSlots(xs) == [] then after == model
            else AddCaps(kinds, model, Ids(g), PrintSlots(xs)) == Some(after)
  {
    if PrintSlots(xs) == [] {
      assert xs == [];
      EmptyGroup(kinds, model, g);
      after := model;
    } else {
      after := AddGroup(kinds, model, g, xs);
    }
  }

  lemma {:induction false} GroupFails(kinds: Kinds, model: Model, g: seq<Container>, xs: seq<SlotCap>)
    requires g != [] && Good(kinds, g) && Blank(model, g) && (forall c :: c in g ==> c.slots == Some(xs))
    requires Elaborated(kinds, xs).None?
    ensures PrintSlots(xs) != [] && AddCaps(kinds, model, Ids(g), PrintSlots(xs)).None?
  {
    assert g[0] in g && Ids(g)[0] == g[0].id;
  }

  lemma {:induction false} BlankAfter(kinds: Kinds, before: Model, after: Model, g: seq<Container>,
                                      others: seq<Container>)
    requires Updated(kinds, before, after, g) && Blank(before, others)
    requires forall x, y :: x in g && y in others ==> x.id != y.id
    ensures Blank(after, others)
  {
    forall c | c in others && c.slots.Some? ensures c.id in after && after[c.id] == map[] {
      assert !Touched(g, c.id);
    }
  }

  // ----- the main result -----

  /** The model before the section is elaborated, with every container empty, and the one that was printed. */
  function EmptyModel(cs: seq<Container>): Model {
    map c | c in cs && c.slots.Some? :: c.id := map[]
  }

  ghost predicate IsModel(model: Model, cs: seq<Container>) {
    && (forall o :: o in model <==> Touched(cs, o))
    && (forall c :: c in cs && c.slots.Some? ==> c.id in model && model[c.id] == MapOf(c.slots.value))
  }

  /** No container has an identifier on an upper table, or mixes thread and reply caps in successive slots. */
  ghost predicate NothingLost(cs: seq<Container>) {
    forall c :: c in cs && c.slots.Some? ==> NoUpperAsid(c.slots.value) && NoMixedReplies(c.slots.value)
  }

  ghost predicate AllContainersReadable(cs: seq<Container>) {
    forall c :: c in cs && c.slots.Some? ==> AllReadable(c.slots.value)
  }

  /**
   The caps section round trip. A well-formed section can always be printed. What is printed can be elaborated, and
   gives the original model, if and only if there is no null cap, no cap to a single object named like a control cap, no
   address space identifier on an upper table, and no mixture of thread, reply and master reply caps to one array in
   successive slots.
   */
  lemma {:induction false} SectionRoundTrip(kinds: Kinds, cs: seq<Container>)
    requires Good(kinds, cs)
    ensures PrintCaps(cs).Some?
    ensures var r := AddDecls(kinds, EmptyModel(cs), PrintCaps(cs).value);
            && (r.Some? && IsModel(r.value, cs) <==> AllContainersReadable(cs) && NothingLost(cs))
            && (AllContainersReadable(cs) ==> r.Some?)
  {
    var model := EmptyModel(cs);
    var after := SectionEffect(kinds, model, cs);
    forall c | c in cs && c.slots.Some?
      ensures AllReadable(c.slots.value) ==> Elaborated(kinds, c.slots.value).Some?
      ensures Elaborated(kinds, c.slots.value) == Some(MapOf(c.slots.value))
          <==> AllReadable(c.slots.value) && NoUpperAsid(c.slots.value) && NoMixedReplies(c.slots.value)
    {
      assert GoodContainer(kinds, c);
      ContainerRoundTrip(kinds, c.slots.value);
      FaithfulExact(kinds, c.slots.value);
    }
    if AllElaborate(kinds, cs) { ModelCompared(kinds, model, after, cs); }
  }

  lemma {:induction false} ModelCompared(kinds: Kinds, model: Model, after: Model, cs: seq<Container>)
    requires model == EmptyModel(cs) && Updated(kinds, model, after, cs)
    ensures IsModel(after, cs)
        <==> forall c :: c in cs && c.slots.Some? ==> Elaborated(kinds, c.slots.value) == Some(MapOf(c.slots.value))
  {
    assert forall o :: o in model <==> Touched(cs, o);
    assert forall c :: c in cs && c.slots.Some? ==> Touched(cs, c.id);
  }

  // ----- inputs that do not come back -----

  /** A thread cap and a reply cap in successive slots to one array come back as two thread caps. */
  lemma {:induction false} MixedRepliesChange(kinds: Kinds, n: string)
    requires var a, b := ObjId(n, Some(0)), ObjId(n, Some(1));
             a in kinds && b in kinds && kinds[a] == kinds[b] == KTcb && GoodKinds(kinds)
    ensures var a, b := ObjId(n, Some(0)), ObjId(n, Some(1));
            AddMappings(kinds, map[], PrintSlots([SlotCap(0, TcbCap(a)), SlotCap(1, ReplyCap(b))]))
            == Some(map[0 := TcbCap(a), 1 := TcbCap(b)])
  {
    var a, b := ObjId(n, Some(0)), ObjId(n, Some(1));
    var xs := [SlotCap(0, TcbCap(a)), SlotCap(1, ReplyCap(b))];
    var ys := [SlotCap(0, TcbCap(a)), SlotCap(1, TcbCap(b))];
    assert Together(xs[0], xs[1]);
    assert GroupLength(xs) == 2;
    assert xs[..2] == xs && xs[2..] == [];
    assert BackAll(xs) == BackGroup(xs) == ys;
    SlotsRoundTrip(kinds, map[], xs);
    InsertTwo(ys);
  }

  lemma {:induction false} InsertTwo(ys: seq<SlotCap>)
    requires |ys| == 2 && ys[0].slot != ys[1].slot
    ensures InsertAll(map[], ys) == Some(map[ys[0].slot := ys[0].cap, ys[1].slot := ys[1].cap])
  {
    assert ys[1..] == [ys[1]] && [ys[1]][1..] == [];
    var one: Slots := map[ys[0].slot := ys[0].cap];
    assert InsertAll(one, [ys[1]]) == Some(one[ys[1].slot := ys[1].cap]);
  }

  lemma {:induction false} InsertOne(x: SlotCap)
    ensures InsertAll(map[], [x]) == Some(map[x.slot := x.cap])
  {
    assert [x][1..] == [];
  }

  /** An address space identifier on an upper table is lost. */
  lemma {:induction false} UpperAsidLost(kinds: Kinds, t: UpperTable, o: ObjId, a: Asid)
    requires GoodKinds(kinds) && o in kinds && kinds[o] == KUpper(t) && o.index.Some?
    ensures AddMappings(kinds, map[], PrintSlots([SlotCap(0, UpperCap(t, o, Some(a)))]))
            == Some(map[0 := UpperCap(t, o, None)])
  {
    var xs := [SlotCap(0, UpperCap(t, o, Some(a)))];
    assert xs[..1] == xs && xs[1..] == [];
    assert BackAll(xs) == BackGroup(xs) == [SlotCap(0, UpperCap(t, o, None))];
    SlotsRoundTrip(kinds, map[], xs);
    InsertOne(SlotCap(0, UpperCap(t, o, None)));
  }

  /** A container with one cap is one line. */
  lemma {:induction false} OneLine(kinds: Kinds, x: SlotCap)
    ensures AddMappings(kinds, map[], PrintSlots([x]))
         == match SlotsAndCaps(kinds, PrintGroup([x])) case None => None case Some(ys) => InsertAll(map[], ys)
  {
    var xs := [x];
    assert xs[..1] == xs && xs[1..] == [];
    assert PrintSlots(xs) == [PrintGroup(xs)];
    assert PrintSlots(xs)[1..] == [];
  }

  /** A null cap is printed as a reference to an object, which cannot be elaborated if there is no such object. */
  lemma {:induction false} NullCapFails(kinds: Kinds)
    requires ObjId("null", None) !in kinds
    ensures AddMappings(kinds, map[], PrintSlots([SlotCap(0, NullCap)])).None?
  {
    var x := SlotCap(0, NullCap);
    OneLine(kinds, x);
    assert [x][1..] == [];
    assert Indices([x]) == [];
    assert RefToIds("null", []) == [ObjId("null", None)];
    assert |"null"| == 4 && |"domain"| == 6;
  }

  /** A thread called "domain": a cap to it comes back as the domain cap. */
  lemma {:induction false} NamedLikeControl(kinds: Kinds)
    ensures AddMappings(kinds, map[], PrintSlots([SlotCap(0, TcbCap(ObjId("domain", None)))]))
         == Some(map[0 := ControlCap(Domain)])
  {
    var x := SlotCap(0, TcbCap(ObjId("domain", None)));
    OneLine(kinds, x);
    assert [x][1..] == [];
    assert Indices([x]) == [];
    DomainIsControl();
    InsertOne(SlotCap(0, ControlCap(Domain)));
  }

  lemma {:induction false} DomainIsControl()
    ensures CapNamed("domain", []) == Some(ControlCap(Domain))
  {
    assert |"domain"| == 6 && |SCHED_CONTROL_NAME| == 13 && |"io_space_master"| == 15 && |"asid_control"| == 12
           && |"irq_control"| == 11;
  }
}
