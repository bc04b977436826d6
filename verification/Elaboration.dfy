/**
 What elaborating any list of declarations does to the slots of each object, whether they were printed or
 not.
 */
module Elaboration {
  import opened Wrappers
  import opened IndexRanges
  import opened Caps
  import opened CapParams
  import opened CapsSection
  import opened CapsRoundTrip

  // ----- one object -----

  predicate NoneFilled(slots: Slots, xs: seq<SlotCap>) {
    forall i :: 0 <= i < |xs| ==> xs[i].slot !in slots
  }

  /** Slots are filled if and only if none is filled already, or twice; the others stay as they are. */
  lemma {:induction false} InsertExact(slots: Slots, xs: seq<SlotCap>)
    ensures InsertAll(slots, xs).Some? <==> DistinctSlots(xs) && NoneFilled(slots, xs)
    ensures InsertAll(slots, xs).Some? ==> InsertAll(slots, xs).value == slots + MapOf(xs)
    decreases |xs|
  {
    if xs != [] {
      InsertExact(slots, xs[..|xs| - 1]);
      InsertLast(slots, xs);
      if DistinctSlots(xs[..|xs| - 1]) { LastSlot(slots, xs); }
    }
  }

  lemma {:induction false} InsertLast(slots: Slots, xs: seq<SlotCap>)
    requires xs != []
    ensures var r, x := InsertAll(slots, xs[..|xs| - 1]), xs[|xs| - 1];
            InsertAll(slots, xs)
            == if r.None? || x.slot in r.value then None else Some(r.value[x.slot := x.cap])
  {
    var n := |xs| - 1;
    InsertAppend(slots, xs[..n], [xs[n]]);
    assert xs == xs[..n] + [xs[n]] && [xs[n]][1..] == [];
  }

  lemma {:induction false} LastSlot(slots: Slots, xs: seq<SlotCap>)
    requires xs != [] && DistinctSlots(xs[..|xs| - 1])
    ensures DistinctSlots(xs) && NoneFilled(slots, xs) <==>
            NoneFilled(slots, xs[..|xs| - 1]) && xs[|xs| - 1].slot !in slots + MapOf(xs[..|xs| - 1])
  {
    var n := |xs| - 1;
    MapOfAt(xs[..n]);
    assert forall i :: 0 <= i < n ==> xs[..n][i] == xs[i];
    if xs[n].slot in MapOf(xs[..n]) {
      var i :| 0 <= i < n && xs[..n][i].slot == xs[n].slot;
      assert xs[i].slot == xs[n].slot;
    }
  }

  function Inserted(slots: Slots, xs: Option<seq<SlotCap>>): Option<Slots> {
    if xs.None? then None else InsertAll(slots, xs.value)
  }

  lemma {:induction false} InsertedTwice(slots: Slots, a: Option<seq<SlotCap>>, b: Option<seq<SlotCap>>)
    ensures Inserted(slots, Both(a, b))
         == if Inserted(slots, a).None? then None else Inserted(Inserted(slots, a).value, b)
  {
    if a.Some? && b.Some? { InsertAppend(slots, a.value, b.value); }
  }

  // ----- one declaration -----

  /** The lines of a declaration as often as it names the object. */
  function LinesIf(kinds: Kinds, os: seq<ObjId>, ms: seq<CapMapping>, o: ObjId): Option<seq<SlotCap>> {
    if os == [] then Some([])
    else if os[0] == o then Both(Lines(kinds, ms), LinesIf(kinds, os[1..], ms, o))
    else LinesIf(kinds, os[1..], ms, o)
  }

  /** The objects named exist, and have slots if any are given. */
  predicate Known(kinds: Kinds, model: Model, os: seq<ObjId>, ms: seq<CapMapping>) {
    forall o :: o in os ==> o in kinds && (ms != [] ==> o in model)
  }

  ghost predicate Does(model: Model, lines: ObjId -> Option<seq<SlotCap>>, after: Model) {
    after.Keys == model.Keys && forall o :: o in model ==> Some(after[o]) == Inserted(model[o], lines(o))
  }

  ghost predicate CanDo(model: Model, lines: ObjId -> Option<seq<SlotCap>>) {
    forall o :: o in model ==> Inserted(model[o], lines(o)).Some?
  }

  lemma {:induction false} OneCap(kinds: Kinds, model: Model, o: ObjId, ms: seq<CapMapping>)
    ensures AddCap(kinds, model, o, ms)
         == if o !in kinds || (ms != [] && o !in model) then None
            else if o !in model then Some(model)
            else if Inserted(model[o], Lines(kinds, ms)).None? then None
            else Some(model[o := Inserted(model[o], Lines(kinds, ms)).value])
  {
    if o in model {
      AddMappingsLines(kinds, model[o], ms);
      if ms == [] { assert model[o := model[o]] == model; }
    }
  }

  lemma {:induction false} DeclExact(kinds: Kinds, model: Model, os: seq<ObjId>, ms: seq<CapMapping>)
    ensures var r := AddCaps(kinds, model, os, ms);
            && (r.Some? <==> Known(kinds, model, os, ms) && CanDo(model, o => LinesIf(kinds, os, ms, o)))
            && (r.Some? ==> Does(model, o => LinesIf(kinds, os, ms, o), r.value))
    decreases |os|
  {
    if os != [] {
      OneCap(kinds, model, os[0], ms);
      assert os == [os[0]] + os[1..];
      if AddCap(kinds, model, os[0], ms).Some? {
        var model' := AddCap(kinds, model, os[0], ms).value;
        DeclExact(kinds, model', os[1..], ms);
        DeclStep(kinds, model, model', os, ms);
      } else if os[0] in model && os[0] in kinds {
        InsertedTwice(model[os[0]], Lines(kinds, ms), LinesIf(kinds, os[1..], ms, os[0]));
        assert Inserted(model[os[0]], LinesIf(kinds, os, ms, os[0])).None?;
      }
    }
  }

  lemma {:induction false} DeclStep(kinds: Kinds, model: Model, model': Model, os: seq<ObjId>, ms: seq<CapMapping>)
    requires os != [] && AddCap(kinds, model, os[0], ms) == Some(model')
    ensures model'.Keys == model.Keys && os[0] in kinds && (ms != [] ==> os[0] in model)
    ensures forall o :: o in model ==>
              Inserted(model[o], LinesIf(kinds, os, ms, o)) == Inserted(model'[o], LinesIf(kinds, os[1..], ms, o))
  {
    OneCap(kinds, model, os[0], ms);
    forall o | o in model
      ensures Inserted(model[o], LinesIf(kinds, os, ms, o)) == Inserted(model'[o], LinesIf(kinds, os[1..], ms, o))
    {
      if o == os[0] { InsertedTwice(model[o], Lines(kinds, ms), LinesIf(kinds, os[1..], ms, o)); }
    }
  }

  // ----- all declarations -----

  /** All lines for an object, in the order of the declarations. */
  function LinesFor(kinds: Kinds, ds: seq<CapDecl>, o: ObjId): Option<seq<SlotCap>> {
    if ds == [] then Some([])
    else Both(LinesIf(kinds, RefToIds(ds[0].name, ds[0].ranges), ds[0].mappings, o), LinesFor(kinds, ds[1..], o))
  }

  predicate AllKnown(kinds: Kinds, model: Model, ds: seq<CapDecl>) {
    forall i :: 0 <= i < |ds| ==> Known(kinds, model, RefToIds(ds[i].name, ds[i].ranges), ds[i].mappings)
  }

  lemma {:induction false} DeclsByObject(kinds: Kinds, model: Model, ds: seq<CapDecl>)
    ensures var r := AddDecls(kinds, model, ds);
            && (r.Some? <==> AllKnown(kinds, model, ds) && CanDo(model, o => LinesFor(kinds, ds, o)))
            && (r.Some? ==> Does(model, o => LinesFor(kinds, ds, o), r.value))
    decreases |ds|
  {
    if ds != [] {
      var os, ms := RefToIds(ds[0].name, ds[0].ranges), ds[0].mappings;
      DeclExact(kinds, model, os, ms);
      assert AllKnown(kinds, model, ds) <==> Known(kinds, model, os, ms) && AllKnown(kinds, model, ds[1..]) by {
        assert forall i :: 0 < i < |ds| ==> ds[i] == ds[1..][i - 1];
        assert forall i :: 0 <= i < |ds| - 1 ==> ds[1..][i] == ds[i + 1];
      }
      forall o | o in model
        ensures Inserted(model[o], LinesFor(kinds, ds, o))
             == if Inserted(model[o], LinesIf(kinds, os, ms, o)).None? then None
                else Inserted(Inserted(model[o], LinesIf(kinds, os, ms, o)).value, LinesFor(kinds, ds[1..], o))
      {
        InsertedTwice(model[o], LinesIf(kinds, os, ms, o), LinesFor(kinds, ds[1..], o));
      }
      if AddCaps(kinds, model, os, ms).Some? {
        var model' := AddCaps(kinds, model, os, ms).value;
        DeclsByObject(kinds, model', ds[1..]);
        KnownAfter(kinds, model, model', ds[1..]);
      }
    }
  }

  lemma {:induction false} KnownAfter(kinds: Kinds, model: Model, model': Model, ds: seq<CapDecl>)
    requires model'.Keys == model.Keys
    ensures AllKnown(kinds, model, ds) <==> AllKnown(kinds, model', ds)
  {
    forall i | 0 <= i < |ds|
      ensures Known(kinds, model, RefToIds(ds[i].name, ds[i].ranges), ds[i].mappings)
         <==> Known(kinds, model', RefToIds(ds[i].name, ds[i].ranges), ds[i].mappings)
    {
    }
  }

  /**
   Elaborating any declarations on any model, seen object by object. It succeeds if and only if every object named
   exists, has slots if it is given any, and for each object all lines for it can be read and no slot is filled already
   or given twice. An object then has its old slots and those of its lines; no other has changed.
   */
  lemma {:induction false} ElaborateExact(kinds: Kinds, model: Model, ds: seq<CapDecl>)
    ensures var r := AddDecls(kinds, model, ds);
            && (r.Some? <==>
                  && AllKnown(kinds, model, ds)
                  && forall o :: o in model ==>
                       && LinesFor(kinds, ds, o).Some? && DistinctSlots(LinesFor(kinds, ds, o).value)
                       && NoneFilled(model[o], LinesFor(kinds, ds, o).value))
            && (r.Some? ==>
                  && r.value.Keys == model.Keys
                  && forall o :: o in model ==>
                       LinesFor(kinds, ds, o).Some? && r.value[o] == model[o] + MapOf(LinesFor(kinds, ds, o).value))
  {
    DeclsByObject(kinds, model, ds);
    forall o | o in model && LinesFor(kinds, ds, o).Some?
      ensures InsertAll(model[o], LinesFor(kinds, ds, o).value).Some? <==>
              DistinctSlots(LinesFor(kinds, ds, o).value) && NoneFilled(model[o], LinesFor(kinds, ds, o).value)
      ensures InsertAll(model[o], LinesFor(kinds, ds, o).value).Some? ==>
              InsertAll(model[o], LinesFor(kinds, ds, o).value).value
              == model[o] + MapOf(LinesFor(kinds, ds, o).value)
    {
      InsertExact(model[o], LinesFor(kinds, ds, o).value);
    }
  }
}
