/**
 The caps section: what the printer writes for the contents of all capability containers, and what
 the elaborator makes of it.
 */
module CapsSection {
  import opened Wrappers
  import opened IndexRanges
  import opened Caps
  import opened CapParams

  datatype SlotCap = SlotCap(slot: nat, cap: Cap)

  /** An object with its slots in ascending order, if it can have slots. */
  datatype Container = Container(id: ObjId, slots: Option<seq<SlotCap>>)

  // ----- the syntax tree -----

  datatype CapMapping = CapMapping(slot: nat, name: string, ranges: seq<Range>, params: seq<Param>)

  datatype CapDecl = CapDecl(name: string, ranges: seq<Range>, mappings: seq<CapMapping>)

  // ----- printing one container -----

  function ControlName(c: Control): string {
    match c
    case IoSpaceMaster => "io_space_master"
    case AsidControl => "asid_control"
    case IrqControl => "irq_control"
    case Domain => "domain"
  }

  const SCHED_CONTROL_NAME := "sched_control"

  predicate IsControlName(name: string) {
    name == "io_space_master" || name == "asid_control" || name == "irq_control" || name == "domain"
        || name == SCHED_CONTROL_NAME
  }

  /** `printCap`. */
  function CapName(c: Cap): string {
    match c
    case NullCap => "null"
    case ControlCap(control) => ControlName(control)
    case SchedControlCap(_) => SCHED_CONTROL_NAME
    case _ => c.id.name
  }

  predicate Together(x: SlotCap, y: SlotCap) {
    SameCap(x.cap, y.cap) && y.slot == x.slot + 1
  }

  /** The length of the run of caps to one array in successive slots, `sameArray`. */
  function GroupLength(xs: seq<SlotCap>): (n: nat)
    requires xs != []
    ensures 1 <= n <= |xs|
  {
    if |xs| > 1 && Together(xs[0], xs[1]) then 1 + GroupLength(xs[1..]) else 1
  }

  predicate IsNumbered(c: Cap) {
    HasObject(c) && c.id.index.Some?
  }

  /** The indices of the objects that caps point to; caps without a numbered object contribute nothing. */
  function Indices(xs: seq<SlotCap>): seq<nat> {
    if xs == [] then []
    else if IsNumbered(xs[0].cap) then [xs[0].cap.id.index.value] + Indices(xs[1..])
    else Indices(xs[1..])
  }

  /** One printed line stands for a whole group. */
  function PrintGroup(group: seq<SlotCap>): CapMapping
    requires group != []
  {
    CapMapping(group[0].slot, CapName(group[0].cap), Compress(Indices(group)), ParamsOf(group[0].cap))
  }

  /** `prettySlotsList`; a cap without an object is never grouped, as `SameCap` asks for one. */
  function PrintSlots(xs: seq<SlotCap>): seq<CapMapping> {
    if xs == [] then []
    else
      var n := GroupLength(xs);
      [PrintGroup(xs[..n])] + PrintSlots(xs[n..])
  }

  // ----- elaborating one container -----

  type Kinds = map<ObjId, Kind>

  /** `refToIDs` for a reference as printed. */
  function RefToIds(name: string, ranges: seq<Range>): seq<ObjId> {
    if ranges == [] then [ObjId(name, None)]
    else Numbered(name, Expand(ranges))
  }

  function Numbered(name: string, ns: seq<nat>): seq<ObjId> {
    seq(|ns|, i requires 0 <= i < |ns| => ObjId(name, Some(ns[i])))
  }

  function CapTo(kinds: Kinds, o: ObjId, ps: seq<Param>): Option<Cap> {
    if o in kinds then CapFrom(kinds[o], o, ps) else None
  }

  /** `capOf'`: the caps that have no object. */
  function CapNamed(name: string, ps: seq<Param>): Option<Cap> {
    if name == SCHED_CONTROL_NAME then
      if |ps| == 1 && ps[0].Core? then Some(SchedControlCap(ps[0].core)) else None
    else if ps != [] then None
    else if name == "io_space_master" then Some(ControlCap(IoSpaceMaster))
    else if name == "asid_control" then Some(ControlCap(AsidControl))
    else if name == "irq_control" then Some(ControlCap(IrqControl))
    else if name == "domain" then Some(ControlCap(Domain))
    else None
  }

  /** Caps to the objects, in successive slots. */
  function CapsTo(kinds: Kinds, slot: nat, os: seq<ObjId>, ps: seq<Param>): Option<seq<SlotCap>>
    decreases |os|
  {
    if os == [] then Some([])
    else
      match (CapTo(kinds, os[0], ps), CapsTo(kinds, slot + 1, os[1..], ps))
      case (Some(c), Some(rest)) => Some([SlotCap(slot, c)] + rest)
      case _ => None
  }

  /** `slotsAndCapsOf`. */
  function SlotsAndCaps(kinds: Kinds, m: CapMapping): Option<seq<SlotCap>> {
    if IsControlName(m.name) && m.ranges == [] then
      match CapNamed(m.name, m.params)
      case None => None
      case Some(c) => Some([SlotCap(m.slot, c)])
    else CapsTo(kinds, m.slot, RefToIds(m.name, m.ranges), m.params)
  }

  type Slots = map<nat, Cap>

  /** `insertMappings`: no slot may be filled twice. */
  function InsertAll(slots: Slots, xs: seq<SlotCap>): Option<Slots>
    decreases |xs|
  {
    if xs == [] then Some(slots)
    else if xs[0].slot in slots then None
    else
      var filled: Slots := slots[xs[0].slot := xs[0].cap];
      InsertAll(filled, xs[1..])
  }

  /** `addMappings`. */
  function AddMappings(kinds: Kinds, slots: Slots, ms: seq<CapMapping>): Option<Slots>
    decreases |ms|
  {
    if ms == [] then Some(slots)
    else
      match SlotsAndCaps(kinds, ms[0])
      case None => None
      case Some(xs) =>
        match InsertAll(slots, xs)
        case None => None
        case Some(slots') => AddMappings(kinds, slots', ms[1..])
  }

  // ----- what a container comes back as -----

  /** Every cap of a group comes back with the parameters of the first. */
  function Back(first: Cap, c: Cap): Cap {
    if HasObject(first) && HasObject(c) then Printed(To(first, c.id)) else c
  }

  function BackWith(first: Cap, group: seq<SlotCap>): seq<SlotCap> {
    seq(|group|, i requires 0 <= i < |group| => SlotCap(group[i].slot, Back(first, group[i].cap)))
  }

  function BackGroup(group: seq<SlotCap>): seq<SlotCap> {
    if group == [] then [] else BackWith(group[0].cap, group)
  }

  function BackAll(xs: seq<SlotCap>): seq<SlotCap> {
    if xs == [] then []
    else
      var n := GroupLength(xs);
      BackGroup(xs[..n]) + BackAll(xs[n..])
  }

  /** The cap is typed by the object it points to, if it points to one. */
  predicate GoodCap(kinds: Kinds, c: Cap) {
    HasObject(c) ==> c.id in kinds && Fits(kinds[c.id], c)
  }

  /** The printed name is read as what it was printed for: no null cap, no single object named like a control cap. */
  predicate Readable(c: Cap) {
    !c.NullCap? && (HasObject(c) && c.id.index.None? ==> !IsControlName(c.id.name))
  }

  predicate AllReadable(xs: seq<SlotCap>) {
    forall i :: 0 <= i < |xs| ==> Readable(xs[i].cap)
  }

  /** Kinds that take the same caps: of the size of a CNode only matters whether it is zero. */
  predicate KindsAlike(a: Kind, b: Kind) {
    a == b || (a.KCNode? && b.KCNode? && (a.bits == 0 <==> b.bits == 0))
  }

  /** Objects of one array are of one kind. */
  predicate GoodKinds(kinds: Kinds) {
    forall a, b :: a in kinds && b in kinds && a.name == b.name ==> KindsAlike(kinds[a], kinds[b])
  }

  predicate GoodSlots(kinds: Kinds, xs: seq<SlotCap>) {
    && (forall i :: 0 <= i < |xs| ==> GoodCap(kinds, xs[i].cap))
    && (forall i, j :: 0 <= i < j < |xs| ==> xs[i].slot < xs[j].slot)
  }

  // ----- one group -----

  lemma {:induction false} GroupRun(xs: seq<SlotCap>, k: nat)
    requires xs != [] && k < GroupLength(xs)
    ensures xs[k].slot == xs[0].slot + k
    ensures k > 0 ==> HasObject(xs[0].cap) && HasObject(xs[k].cap) && xs[k].cap.id.name == xs[0].cap.id.name
    ensures k > 0 ==> xs[0].cap.id.index.Some? && xs[k].cap.id.index.Some?
    ensures k > 0 ==> Together(xs[k - 1], xs[k])
    decreases k
  {
    if k > 0 {
      GroupRun(xs[1..], k - 1);
    }
  }

  /** A group ends where the next cap does not belong to it. */
  lemma {:induction false} GroupMaximal(xs: seq<SlotCap>)
    requires xs != [] && GroupLength(xs) < |xs|
    ensures !Together(xs[GroupLength(xs) - 1], xs[GroupLength(xs)])
    decreases |xs|
  {
    if Together(xs[0], xs[1]) { GroupMaximal(xs[1..]); }
  }

  predicate IsGroup(kinds: Kinds, g: seq<SlotCap>) {
    && g != []
    && (forall i :: 0 <= i < |g| ==> GoodCap(kinds, g[i].cap) && g[i].slot == g[0].slot + i)
    && (|g| > 1 ==> IsNumbered(g[0].cap))
    && (IsNumbered(g[0].cap) ==>
          forall i :: 0 <= i < |g| ==> IsNumbered(g[i].cap) && g[i].cap.id.name == g[0].cap.id.name)
  }

  lemma {:induction false} GroupIsGroup(kinds: Kinds, xs: seq<SlotCap>)
    requires xs != [] && GoodSlots(kinds, xs)
    ensures IsGroup(kinds, xs[..GroupLength(xs)])
  {
    var g := xs[..GroupLength(xs)];
    forall i | 0 <= i < |g|
      ensures GoodCap(kinds, g[i].cap) && g[i].slot == g[0].slot + i
      ensures |g| > 1 ==> IsNumbered(g[0].cap) && IsNumbered(g[i].cap) && g[i].cap.id.name == g[0].cap.id.name
    {
      GroupRun(xs, i);
      if |g| > 1 { GroupRun(xs, 1); }
    }
  }

  lemma {:induction false} IndicesNumbered(g: seq<SlotCap>)
    requires forall i :: 0 <= i < |g| ==> IsNumbered(g[i].cap)
    ensures |Indices(g)| == |g|
    ensures forall i :: 0 <= i < |g| ==> IsNumbered(g[i].cap) && Some(Indices(g)[i]) == g[i].cap.id.index
    decreases |g|
  {
    if g != [] { IndicesNumbered(g[1..]); }
  }

  /** Elaborating caps to the objects of a group. */
  lemma {:induction false} CapsToGroup(kinds: Kinds, first: Cap, g: seq<SlotCap>, slot: nat, os: seq<ObjId>)
    requires GoodKinds(kinds) && HasObject(first) && first.id in kinds && Fits(kinds[first.id], first) && |os| == |g|
    requires forall i :: 0 <= i < |g| ==>
               && HasObject(g[i].cap) && g[i].cap.id in kinds && g[i].cap.id.name == first.id.name
               && os[i] == g[i].cap.id && g[i].slot == slot + i
    ensures CapsTo(kinds, slot, os, ParamsOf(first)) == Some(BackWith(first, g))
    decreases |g|
  {
    if g != [] {
      CapToOne(kinds, first, g[0].cap);
      CapsToGroup(kinds, first, g[1..], slot + 1, os[1..]);
      BackWithFirst(first, g);
      CapsToFirst(kinds, slot, os, ParamsOf(first));
    } else {
      assert BackWith(first, g) == [] && os == [];
    }
  }

  lemma {:induction false} CapsToFirst(kinds: Kinds, slot: nat, os: seq<ObjId>, ps: seq<Param>)
    requires os != [] && CapTo(kinds, os[0], ps).Some? && CapsTo(kinds, slot + 1, os[1..], ps).Some?
    ensures CapsTo(kinds, slot, os, ps)
         == Some([SlotCap(slot, CapTo(kinds, os[0], ps).value)] + CapsTo(kinds, slot + 1, os[1..], ps).value)
  {
  }

  lemma {:induction false} CapToOne(kinds: Kinds, first: Cap, c: Cap)
    requires GoodKinds(kinds) && HasObject(first) && first.id in kinds && Fits(kinds[first.id], first)
    requires HasObject(c) && c.id in kinds && c.id.name == first.id.name
    ensures CapTo(kinds, c.id, ParamsOf(first)) == Some(Back(first, c))
  {
    ParamsRoundTrip(kinds[c.id], first, c.id);
  }

  lemma {:induction false} BackWithFirst(first: Cap, g: seq<SlotCap>)
    requires g != []
    ensures BackWith(first, g) == [SlotCap(g[0].slot, Back(first, g[0].cap))] + BackWith(first, g[1..])
  {
  }

  /** One printed line elaborates to its group, with the parameters of the first cap throughout. */
  lemma {:induction false} GroupRoundTrip(kinds: Kinds, g: seq<SlotCap>)
    requires GoodKinds(kinds) && IsGroup(kinds, g) && Readable(g[0].cap)
    ensures SlotsAndCaps(kinds, PrintGroup(g)) == Some(BackGroup(g))
  {
    var first := g[0].cap;
    if IsNumbered(first) {
      NumberedIds(g, first.id.name);
      CapsToGroup(kinds, first, g, g[0].slot, RefToIds(first.id.name, Compress(Indices(g))));
    } else {
      assert |g| == 1 && g[1..] == [];
      assert Indices(g) == [];
      if HasObject(first) {
        CapsToGroup(kinds, first, g, g[0].slot, [first.id]);
      } else {
        ControlRoundTrip(kinds, g);
      }
    }
  }

  /** The printed index ranges name the objects of the group in order. */
  lemma {:induction false} NumberedIds(g: seq<SlotCap>, name: string)
    requires g != [] && forall i :: 0 <= i < |g| ==> IsNumbered(g[i].cap) && g[i].cap.id.name == name
    ensures Compress(Indices(g)) != [] && |RefToIds(name, Compress(Indices(g)))| == |g|
    ensures forall i :: 0 <= i < |g| ==> HasObject(g[i].cap) && RefToIds(name, Compress(Indices(g)))[i] == g[i].cap.id
  {
    IndicesNumbered(g);
    RangesRoundTrip(Indices(g));
  }

  lemma {:induction false} ControlRoundTrip(kinds: Kinds, g: seq<SlotCap>)
    requires |g| == 1 && !HasObject(g[0].cap) && !g[0].cap.NullCap? && Indices(g) == []
    ensures SlotsAndCaps(kinds, PrintGroup(g)) == Some(BackGroup(g))
  {
    assert BackGroup(g) == [SlotCap(g[0].slot, g[0].cap)];
  }

  // ----- one container -----

  lemma {:induction false} InsertAppend(slots: Slots, a: seq<SlotCap>, b: seq<SlotCap>)
    ensures InsertAll(slots, a + b) == match InsertAll(slots, a) case None => None case Some(s) => InsertAll(s, b)
    decreases |a|
  {
    if a == [] {
      assert a + b == b;
    } else {
      assert (a + b)[1..] == a[1..] + b;
      if a[0].slot !in slots {
        var filled: Slots := slots[a[0].slot := a[0].cap];
        InsertAppend(filled, a[1..], b);
      }
    }
  }

  /** A line that is not read as what it was printed for fails or yields another cap in the same slot. */
  lemma {:induction false} GroupMisread(kinds: Kinds, g: seq<SlotCap>)
    requires IsGroup(kinds, g) && !Readable(g[0].cap)
    ensures |g| == 1
    ensures var r := SlotsAndCaps(kinds, PrintGroup(g));
            r.Some? ==> |r.value| == 1 && r.value[0].slot == g[0].slot && r.value[0].cap != g[0].cap
  {
    assert g[1..] == [] && Indices(g) == [];
    var m := PrintGroup(g);
    if !(IsControlName(m.name) && m.ranges == []) {
      var os := RefToIds(m.name, m.ranges);
      assert os[1..] == [];
      assert CapsTo(kinds, m.slot + 1, os[1..], m.params) == Some([]);
    }
  }

  /** What a list of lines elaborates to. */
  function Lines(kinds: Kinds, ms: seq<CapMapping>): Option<seq<SlotCap>> {
    if ms == [] then Some([])
    else
      match (SlotsAndCaps(kinds, ms[0]), Lines(kinds, ms[1..]))
      case (Some(xs), Some(rest)) => Some(xs + rest)
      case _ => None
  }

  lemma {:induction false} AddMappingsLines(kinds: Kinds, slots: Slots, ms: seq<CapMapping>)
    ensures AddMappings(kinds, slots, ms)
         == match Lines(kinds, ms) case None => None case Some(xs) => InsertAll(slots, xs)
    decreases |ms|
  {
    if ms != [] && SlotsAndCaps(kinds, ms[0]).Some? {
      var xs, rest := SlotsAndCaps(kinds, ms[0]).value, Lines(kinds, ms[1..]);
      if InsertAll(slots, xs).Some? { AddMappingsLines(kinds, InsertAll(slots, xs).value, ms[1..]); }
      if rest.Some? { InsertAppend(slots, xs, rest.value); }
    }
  }

  predicate SameSlots(xs: seq<SlotCap>, ys: seq<SlotCap>) {
    |ys| == |xs| && forall i :: 0 <= i < |xs| ==> ys[i].slot == xs[i].slot
  }

  function Both(a: Option<seq<SlotCap>>, b: Option<seq<SlotCap>>): Option<seq<SlotCap>> {
    if a.Some? && b.Some? then Some(a.value + b.value) else None
  }

  /** One line and the rest of a container. */
  lemma {:induction false} LinesFirst(kinds: Kinds, xs: seq<SlotCap>)
    requires xs != []
    ensures var n := GroupLength(xs);
            Lines(kinds, PrintSlots(xs))
            == Both(SlotsAndCaps(kinds, PrintGroup(xs[..n])), Lines(kinds, PrintSlots(xs[n..])))
  {
    var n := GroupLength(xs);
    var ms := PrintSlots(xs);
    assert ms[0] == PrintGroup(xs[..n]) && ms[1..] == PrintSlots(xs[n..]);
  }

  lemma {:induction false} GoodRest(kinds: Kinds, xs: seq<SlotCap>, n: nat)
    requires n <= |xs| && GoodSlots(kinds, xs)
    ensures GoodSlots(kinds, xs[n..])
  {
  }

  lemma {:induction false} ReadableSplit(kinds: Kinds, xs: seq<SlotCap>)
    requires xs != [] && IsGroup(kinds, xs[..GroupLength(xs)])
    ensures AllReadable(xs) <==> Readable(xs[0].cap) && AllReadable(xs[GroupLength(xs)..])
  {
    var n := GroupLength(xs);
    var g, rest := xs[..n], xs[n..];
    assert forall i :: 0 <= i < n ==> g[i] == xs[i] && (Readable(g[0].cap) ==> Readable(g[i].cap));
    if AllReadable(rest) && Readable(xs[0].cap) {
      forall i | 0 <= i < |xs| ensures Readable(xs[i].cap) {
        if i < n { assert g[i] == xs[i]; } else { assert rest[i - n] == xs[i]; }
      }
    }
  }

  /** A readable container elaborates to what its groups come back as. */
  lemma {:induction false} LinesBack(kinds: Kinds, xs: seq<SlotCap>)
    requires GoodKinds(kinds) && GoodSlots(kinds, xs) && AllReadable(xs)
    ensures Lines(kinds, PrintSlots(xs)) == Some(BackAll(xs))
    decreases |xs|
  {
    if xs != [] {
      var n := GroupLength(xs);
      LinesFirst(kinds, xs);
      GroupIsGroup(kinds, xs);
      GoodRest(kinds, xs, n);
      ReadableSplit(kinds, xs);
      GroupRoundTrip(kinds, xs[..n]);
      LinesBack(kinds, xs[n..]);
    }
  }

  /** Any container elaborates, if it does, to caps in the same slots, but not to its own caps unless it is readable. */
  lemma {:induction false} LinesMisread(kinds: Kinds, xs: seq<SlotCap>)
    requires GoodKinds(kinds) && GoodSlots(kinds, xs) && Lines(kinds, PrintSlots(xs)).Some?
    ensures SameSlots(xs, Lines(kinds, PrintSlots(xs)).value)
    ensures Lines(kinds, PrintSlots(xs)).value == xs ==> AllReadable(xs)
    decreases |xs|
  {
    if xs != [] {
      var n := GroupLength(xs);
      LinesFirst(kinds, xs);
      GroupIsGroup(kinds, xs);
      GoodRest(kinds, xs, n);
      GroupRead(kinds, xs[..n]);
      LinesMisread(kinds, xs[n..]);
      ReadJoin(kinds, xs, SlotsAndCaps(kinds, PrintGroup(xs[..n])).value, Lines(kinds, PrintSlots(xs[n..])).value);
    }
  }

  lemma {:induction false} ReadJoin(kinds: Kinds, xs: seq<SlotCap>, a: seq<SlotCap>, b: seq<SlotCap>)
    requires xs != [] && IsGroup(kinds, xs[..GroupLength(xs)])
    requires SameSlots(xs[..GroupLength(xs)], a) && SameSlots(xs[GroupLength(xs)..], b)
    requires a == xs[..GroupLength(xs)] ==> Readable(xs[0].cap)
    requires b == xs[GroupLength(xs)..] ==> AllReadable(xs[GroupLength(xs)..])
    ensures SameSlots(xs, a + b) && (a + b == xs ==> AllReadable(xs))
  {
    var n := GroupLength(xs);
    ReadableSplit(kinds, xs);
    JoinSlots(xs[..n], a, xs[n..], b);
    assert xs == xs[..n] + xs[n..];
  }

  /** A line that elaborates yields caps in the slots of its group, but not the group's caps unless it is readable. */
  lemma {:induction false} GroupRead(kinds: Kinds, g: seq<SlotCap>)
    requires GoodKinds(kinds) && IsGroup(kinds, g) && SlotsAndCaps(kinds, PrintGroup(g)).Some?
    ensures SameSlots(g, SlotsAndCaps(kinds, PrintGroup(g)).value)
    ensures SlotsAndCaps(kinds, PrintGroup(g)).value == g ==> Readable(g[0].cap)
  {
    if Readable(g[0].cap) { GroupRoundTrip(kinds, g); } else { GroupMisread(kinds, g); }
  }

  lemma {:induction false} JoinSlots(g: seq<SlotCap>, a: seq<SlotCap>, rest: seq<SlotCap>, b: seq<SlotCap>)
    requires SameSlots(g, a) && SameSlots(rest, b)
    ensures SameSlots(g + rest, a + b) && (a + b == g + rest <==> a == g && b == rest)
  {
    SameParts(a, b, g, rest);
  }

  /** Elaborating the printed slots inserts what they come back as. */
  lemma {:induction false} SlotsRoundTrip(kinds: Kinds, slots: Slots, xs: seq<SlotCap>)
    requires GoodKinds(kinds) && GoodSlots(kinds, xs) && AllReadable(xs)
    ensures AddMappings(kinds, slots, PrintSlots(xs)) == InsertAll(slots, BackAll(xs))
  {
    AddMappingsLines(kinds, slots, PrintSlots(xs));
    LinesBack(kinds, xs);
  }

  /** The slot map a list stands for. */
  function MapOf(xs: seq<SlotCap>): Slots {
    if xs == [] then map[]
    else
      var m: Slots := MapOf(xs[..|xs| - 1])[xs[|xs| - 1].slot := xs[|xs| - 1].cap];
      m
  }

  predicate DistinctSlots(xs: seq<SlotCap>) {
    forall i, j :: 0 <= i < j < |xs| ==> xs[i].slot != xs[j].slot
  }

  lemma {:induction false} MapOfAt(xs: seq<SlotCap>)
    requires DistinctSlots(xs)
    ensures forall i :: 0 <= i < |xs| ==> xs[i].slot in MapOf(xs) && MapOf(xs)[xs[i].slot] == xs[i].cap
    ensures forall s :: s in MapOf(xs) ==> exists i :: 0 <= i < |xs| && xs[i].slot == s
    decreases |xs|
  {
    if xs != [] {
      var n := |xs| - 1;
      MapOfAt(xs[..n]);
      forall s | s in MapOf(xs) ensures exists i :: 0 <= i < |xs| && xs[i].slot == s {
        if s != xs[n].slot {
          var i :| 0 <= i < n && xs[..n][i].slot == s;
          assert xs[i].slot == s;
        }
      }
      forall i | 0 <= i < |xs| ensures xs[i].slot in MapOf(xs) && MapOf(xs)[xs[i].slot] == xs[i].cap {
        if i < n { assert xs[..n][i] == xs[i]; }
      }
    }
  }

  /** Inserting into an empty object gives the slot map. */
  lemma {:induction false} InsertDistinct(xs: seq<SlotCap>)
    requires DistinctSlots(xs)
    ensures InsertAll(map[], xs) == Some(MapOf(xs))
    decreases |xs|
  {
    if xs != [] {
      var n := |xs| - 1;
      var a, x := xs[..n], xs[n];
      InsertDistinct(a);
      MapOfAt(a);
      assert xs == a + [x];
      InsertAppend(map[], a, [x]);
      assert [x][1..] == [];
      assert x.slot !in MapOf(a);
    }
  }

  // ----- when a container comes back unchanged -----

  lemma {:induction false} BackSlots(xs: seq<SlotCap>)
    ensures |BackAll(xs)| == |xs| && forall i :: 0 <= i < |xs| ==> BackAll(xs)[i].slot == xs[i].slot
    decreases |xs|
  {
    if xs != [] {
      var n := GroupLength(xs);
      BackSlots(xs[n..]);
      assert BackAll(xs) == BackGroup(xs[..n]) + BackAll(xs[n..]);
    }
  }

  /**
   No upper table has an address space identifier, and caps that are printed together differ in their objects only.
   */
  predicate Faithful(xs: seq<SlotCap>) {
    && (forall i :: 0 <= i < |xs| ==> Printed(xs[i].cap) == xs[i].cap)
    && (forall i :: 0 < i < |xs| && Together(xs[i - 1], xs[i]) ==> To(xs[i - 1].cap, xs[i].cap.id) == xs[i].cap)
  }

  /** No cap to an upper table carries an address space identifier. */
  predicate NoUpperAsid(xs: seq<SlotCap>) {
    forall i :: 0 <= i < |xs| && xs[i].cap.UpperCap? ==> xs[i].cap.asid.None?
  }

  /** The two are different ones of thread, reply and master reply cap. */
  predicate MixedReplies(c: Cap, d: Cap) {
    || (c.TcbCap? && (d.ReplyCap? || d.MasterReplyCap?))
    || (c.ReplyCap? && (d.TcbCap? || d.MasterReplyCap?))
    || (c.MasterReplyCap? && (d.TcbCap? || d.ReplyCap?))
  }

  /** No successive slots hold different ones of thread, reply and master reply caps to one array. */
  predicate NoMixedReplies(xs: seq<SlotCap>) {
    forall i :: 0 < i < |xs| && xs[i].slot == xs[i - 1].slot + 1 && MixedReplies(xs[i - 1].cap, xs[i].cap) ==>
      var o, u := xs[i - 1].cap.id, xs[i].cap.id; o.name != u.name || o.index.None? || u.index.None?
  }

  /** Printing does not tell the two apart: thread and reply caps, and upper tables with different identifiers. */
  predicate PrintedAlike(c: Cap, d: Cap) {
    MixedReplies(c, d) || (c.UpperCap? && d.UpperCap?)
  }

  /**
   Caps are printed together if and only if they are in successive slots, to members of one array, and the same cap but
   for the object, or not told apart by printing.
   */
  lemma {:induction false} TogetherExact(kinds: Kinds, x: SlotCap, y: SlotCap)
    requires GoodKinds(kinds) && GoodCap(kinds, x.cap) && GoodCap(kinds, y.cap)
    ensures Together(x, y) <==>
              && y.slot == x.slot + 1 && IsNumbered(x.cap) && IsNumbered(y.cap) && x.cap.id.name == y.cap.id.name
              && (To(x.cap, y.cap.id) == y.cap || PrintedAlike(x.cap, y.cap))
  {
    if IsNumbered(x.cap) && IsNumbered(y.cap) && x.cap.id.name == y.cap.id.name {
      assert KindsAlike(kinds[x.cap.id], kinds[y.cap.id]);
    }
  }

  /** The caps that do not come back unchanged can be read off the slots. */
  lemma {:induction false} FaithfulExact(kinds: Kinds, xs: seq<SlotCap>)
    requires GoodKinds(kinds) && GoodSlots(kinds, xs)
    ensures Faithful(xs) <==> NoUpperAsid(xs) && NoMixedReplies(xs)
  {
    assert NoUpperAsid(xs) <==> forall i :: 0 <= i < |xs| ==> Printed(xs[i].cap) == xs[i].cap;
    if NoUpperAsid(xs) {
      forall i | 0 < i < |xs|
        ensures Together(xs[i - 1], xs[i]) && To(xs[i - 1].cap, xs[i].cap.id) != xs[i].cap
            <==> xs[i].slot == xs[i - 1].slot + 1 && MixedReplies(xs[i - 1].cap, xs[i].cap)
                 && xs[i - 1].cap.id.name == xs[i].cap.id.name && IsNumbered(xs[i - 1].cap) && IsNumbered(xs[i].cap)
      {
        TogetherChanged(kinds, xs[i - 1], xs[i]);
      }
    }
  }

  lemma {:induction false} TogetherChanged(kinds: Kinds, x: SlotCap, y: SlotCap)
    requires GoodKinds(kinds) && GoodCap(kinds, x.cap) && GoodCap(kinds, y.cap)
    requires Printed(x.cap) == x.cap && Printed(y.cap) == y.cap
    ensures Together(x, y) && To(x.cap, y.cap.id) != y.cap
        <==> y.slot == x.slot + 1 && MixedReplies(x.cap, y.cap) && x.cap.id.name == y.cap.id.name
             && IsNumbered(x.cap) && IsNumbered(y.cap)
  {
    if Together(x, y) { OnlyRepliesMix(kinds[x.cap.id], x.cap, y.cap); }
  }

  /** A list in which each entry is printed together with the one before it. */
  predicate AllTogether(g: seq<SlotCap>) {
    forall i :: 0 < i < |g| ==> Together(g[i - 1], g[i])
  }

  lemma {:induction false} FaithfulGroup(g: seq<SlotCap>, k: nat)
    requires AllTogether(g) && Faithful(g) && k < |g| && HasObject(g[0].cap)
    ensures HasObject(g[k].cap) && To(g[0].cap, g[k].cap.id) == g[k].cap
    decreases k
  {
    if k > 0 {
      FaithfulGroup(g, k - 1);
      assert Together(g[k - 1], g[k]);
    }
  }

  lemma {:induction false} GroupUnchanged(g: seq<SlotCap>)
    requires g != [] && AllTogether(g) && Faithful(g)
    ensures BackGroup(g) == g
  {
    var back := BackGroup(g);
    forall k | 0 <= k < |g| ensures back[k] == g[k] {
      if HasObject(g[0].cap) { FaithfulGroup(g, k); }
    }
  }

  lemma {:induction false} GroupFaithful(g: seq<SlotCap>)
    requires g != [] && AllTogether(g) && BackGroup(g) == g
    ensures Faithful(g)
  {
    var back := BackGroup(g);
    forall k | 0 <= k < |g| ensures Printed(g[k].cap) == g[k].cap {
      if k > 0 { assert Together(g[k - 1], g[k]) && Together(g[0], g[1]); }
      assert back[k] == g[k];
    }
    forall k | 0 < k < |g| ensures To(g[k - 1].cap, g[k].cap.id) == g[k].cap {
      assert Together(g[k - 1], g[k]) && Together(g[0], g[1]);
      assert back[k] == g[k] && back[k - 1] == g[k - 1];
    }
  }

  lemma {:induction false} GroupBackExact(g: seq<SlotCap>)
    requires g != [] && AllTogether(g)
    ensures BackGroup(g) == g <==> Faithful(g)
  {
    if Faithful(g) { GroupUnchanged(g); }
    if BackGroup(g) == g { GroupFaithful(g); }
  }

  lemma {:induction false} FaithfulSplit(xs: seq<SlotCap>)
    requires xs != []
    ensures var n := GroupLength(xs); AllTogether(xs[..n]) && (Faithful(xs) <==> Faithful(xs[..n]) && Faithful(xs[n..]))
  {
    var n := GroupLength(xs);
    var g, rest := xs[..n], xs[n..];
    forall i | 0 < i < n ensures Together(g[i - 1], g[i]) { GroupRun(xs, i); }
    if n < |xs| { GroupMaximal(xs); }
    assert forall i :: 0 <= i < |rest| ==> rest[i] == xs[n + i];
    if Faithful(g) && Faithful(rest) {
      forall i | 0 <= i < |xs| ensures Printed(xs[i].cap) == xs[i].cap {
        if i < n { assert g[i] == xs[i]; } else { assert rest[i - n] == xs[i]; }
      }
      forall i | 0 < i < |xs| && Together(xs[i - 1], xs[i]) ensures To(xs[i - 1].cap, xs[i].cap.id) == xs[i].cap {
        if i < n { assert g[i] == xs[i] && g[i - 1] == xs[i - 1]; }
        else if i > n { assert rest[i - n] == xs[i] && rest[i - n - 1] == xs[i - 1]; }
      }
    }
  }

  /** A container comes back unchanged if and only if it is faithful. */
  lemma {:induction false} BackExact(xs: seq<SlotCap>)
    ensures BackAll(xs) == xs <==> Faithful(xs)
    decreases |xs|
  {
    if xs != [] {
      var n := GroupLength(xs);
      var g, rest := xs[..n], xs[n..];
      FaithfulSplit(xs);
      GroupBackExact(g);
      BackExact(rest);
      BackParts(xs);
    }
  }

  lemma {:induction false} BackParts(xs: seq<SlotCap>)
    requires xs != []
    ensures var n := GroupLength(xs);
            BackAll(xs) == xs <==> BackGroup(xs[..n]) == xs[..n] && BackAll(xs[n..]) == xs[n..]
  {
    var n := GroupLength(xs);
    assert xs == xs[..n] + xs[n..];
    SameParts(BackGroup(xs[..n]), BackAll(xs[n..]), xs[..n], xs[n..]);
  }

  lemma {:induction false} SameParts(a: seq<SlotCap>, b: seq<SlotCap>, c: seq<SlotCap>, d: seq<SlotCap>)
    requires |a| == |c|
    ensures a + b == c + d <==> a == c && b == d
  {
    if a + b == c + d {
      assert a == (a + b)[..|a|] && b == (a + b)[|a|..];
      assert c == (c + d)[..|a|] && d == (c + d)[|a|..];
    }
  }

  lemma {:induction false} SameMaps(xs: seq<SlotCap>, ys: seq<SlotCap>)
    requires DistinctSlots(xs) && SameSlots(xs, ys)
    ensures DistinctSlots(ys) && (MapOf(ys) == MapOf(xs) <==> ys == xs)
  {
    MapOfAt(xs);
    MapOfAt(ys);
    if MapOf(ys) == MapOf(xs) {
      forall i | 0 <= i < |xs| ensures ys[i] == xs[i] {
        assert MapOf(ys)[ys[i].slot] == ys[i].cap && MapOf(xs)[xs[i].slot] == xs[i].cap;
      }
    }
  }

  /** The slot map a container is elaborated to. */
  function Elaborated(kinds: Kinds, xs: seq<SlotCap>): Option<Slots> {
    AddMappings(kinds, map[], PrintSlots(xs))
  }

  /** A container is printed and elaborated to itself if and only if it is readable and faithful. */
  lemma {:induction false} ContainerRoundTrip(kinds: Kinds, xs: seq<SlotCap>)
    requires GoodKinds(kinds) && GoodSlots(kinds, xs)
    ensures AllReadable(xs) ==> Elaborated(kinds, xs).Some?
    ensures Elaborated(kinds, xs) == Some(MapOf(xs)) <==> AllReadable(xs) && Faithful(xs)
  {
    AddMappingsLines(kinds, map[], PrintSlots(xs));
    if AllReadable(xs) { LinesBack(kinds, xs); }
    BackSlots(xs);
    BackExact(xs);
    var r := Lines(kinds, PrintSlots(xs));
    if r.Some? {
      LinesMisread(kinds, xs);
      SameMaps(xs, r.value);
      InsertDistinct(r.value);
    }
  }
}
