/**
 The parameters with which capabilities are printed and read back.
 */
module CapParams {
  import opened Wrappers
  import opened Caps

  datatype Kind = KEndpoint | KNotification | KRtReply | KTcb | KCNode(bits: nat) | KFrame | KPageTable | KPageDirectory
                | KUpper(table: UpperTable) | KPlain(plain: PlainKind)

  // ----- printing parameters -----

  datatype Param =
    | Rights(rights: set<Right>)
    | Guard(guard: nat)
    | GuardSize(size: nat)
    | Badge(badge: nat)
    | Core(core: nat)
    | Reply
    | MasterReply
    | AsidParam(asid: Asid)
    | Cached(cached: bool)
    | FrameMapping(container: ObjId, slot: nat)

  function IfNonzero(n: nat, p: Param): seq<Param> { if n == 0 then [] else [p] }

  function IfRights(r: set<Right>): seq<Param> { if r == {} then [] else [Rights(r)] }

  function IfAsid(a: Option<Asid>): seq<Param> { if a.None? then [] else [AsidParam(a.value)] }

  function IfUncached(cached: bool): seq<Param> { if cached then [] else [Cached(false)] }

  function IfMapping(m: Option<(ObjId, nat)>): seq<Param> {
    if m.None? then [] else [FrameMapping(m.value.0, m.value.1)]
  }

  /** `maybeCapParams`. */
  function ParamsOf(c: Cap): seq<Param> {
    match c
    case EndpointCap(_, badge, rights) => IfNonzero(badge, Badge(badge)) + IfRights(rights)
    case NotificationCap(_, badge, rights) => IfNonzero(badge, Badge(badge)) + IfRights(rights)
    case RtReplyCap(_, rights) => IfRights(rights)
    case ReplyCap(_) => [Reply]
    case MasterReplyCap(_) => [MasterReply]
    case CNodeCap(_, guard, size) => IfNonzero(guard, Guard(guard)) + IfNonzero(size, GuardSize(size))
    case FrameCap(_, rights, asid, cached, mapping) =>
      IfRights(rights) + (IfAsid(asid) + (IfUncached(cached) + IfMapping(mapping)))
    case PageTableCap(_, asid) => IfAsid(asid)
    case PageDirectoryCap(_, asid) => IfAsid(asid)
    case SchedControlCap(core) => [Core(core)]
    case _ => []
  }

  // ----- reading parameters -----

  datatype Tag = TRights | TGuard | TGuardSize | TBadge | TCore | TReply | TMasterReply | TAsid | TCached | TMapping

  function TagOf(p: Param): Tag {
    match p
    case Rights(_) => TRights
    case Guard(_) => TGuard
    case GuardSize(_) => TGuardSize
    case Badge(_) => TBadge
    case Core(_) => TCore
    case Reply => TReply
    case MasterReply => TMasterReply
    case AsidParam(_) => TAsid
    case Cached(_) => TCached
    case FrameMapping(_, _) => TMapping
  }

  /** The first parameter of a kind. */
  function Find(ps: seq<Param>, t: Tag): (r: Option<Param>)
    ensures r.Some? ==> TagOf(r.value) == t
  {
    if ps == [] then None else if TagOf(ps[0]) == t then Some(ps[0]) else Find(ps[1..], t)
  }

  function Count(ps: seq<Param>, t: Tag): nat {
    if ps == [] then 0 else (if TagOf(ps[0]) == t then 1 else 0) + Count(ps[1..], t)
  }

  /** Rights given more than once are united. */
  function GetRights(ps: seq<Param>): set<Right> {
    if ps == [] then {} else (if ps[0].Rights? then ps[0].rights else {}) + GetRights(ps[1..])
  }

  function GetBadge(ps: seq<Param>): nat {
    var p := Find(ps, TBadge);
    if p.Some? && p.value.Badge? then p.value.badge else 0
  }

  function GetGuard(ps: seq<Param>): nat {
    var p := Find(ps, TGuard);
    if p.Some? && p.value.Guard? then p.value.guard else 0
  }

  function GetGuardSize(ps: seq<Param>): nat {
    var p := Find(ps, TGuardSize);
    if p.Some? && p.value.GuardSize? then p.value.size else 0
  }

  function GetAsid(ps: seq<Param>): Option<Asid> {
    var p := Find(ps, TAsid);
    if p.Some? && p.value.AsidParam? then Some(p.value.asid) else None
  }

  function GetCached(ps: seq<Param>): bool {
    var p := Find(ps, TCached);
    if p.Some? && p.value.Cached? then p.value.cached else true
  }

  function GetMapping(ps: seq<Param>): Option<(ObjId, nat)> {
    var p := Find(ps, TMapping);
    if p.Some? && p.value.FrameMapping? then Some((p.value.container, p.value.slot)) else None
  }

  /** Only these kinds of parameters, each at most once. */
  predicate AtMostOnce(ps: seq<Param>, allowed: set<Tag>) {
    forall t :: Count(ps, t) <= if t in allowed then 1 else 0
  }

  /** The same, with rights besides them as often as one likes. */
  predicate AtMostOnceWithRights(ps: seq<Param>, allowed: set<Tag>) {
    forall t :: t != TRights ==> Count(ps, t) <= if t in allowed then 1 else 0
  }

  /** `validCapPars`. */
  predicate ValidParams(k: Kind, ps: seq<Param>) {
    match k
    case KEndpoint => AtMostOnceWithRights(ps, {TBadge})
    case KNotification => AtMostOnceWithRights(ps, {TBadge})
    case KTcb => AtMostOnce(ps, {TReply, TMasterReply}) && (Count(ps, TReply) == 0 || Count(ps, TMasterReply) == 0)
    case KCNode(_) => AtMostOnce(ps, {TGuard, TGuardSize})
    case KFrame => AtMostOnceWithRights(ps, {TAsid, TCached, TMapping})
    case KRtReply => AtMostOnce(ps, {TRights})
    case KPageTable => AtMostOnce(ps, {TAsid})
    case KPageDirectory => AtMostOnce(ps, {TAsid})
    case KUpper(_) => AtMostOnce(ps, {TAsid})
    case KPlain(_) => ps == []
  }

  /** `objCapOf`: a cap to an object of a kind, from its parameters. */
  function CapFrom(k: Kind, o: ObjId, ps: seq<Param>): Option<Cap> {
    if !ValidParams(k, ps) then None
    else
      match k
      case KEndpoint => Some(EndpointCap(o, GetBadge(ps), GetRights(ps)))
      case KNotification => Some(NotificationCap(o, GetBadge(ps), GetRights(ps)))
      case KRtReply => Some(RtReplyCap(o, GetRights(ps)))
      case KTcb =>
        Some(if Count(ps, TReply) > 0 then ReplyCap(o)
             else if Count(ps, TMasterReply) > 0 then MasterReplyCap(o)
             else TcbCap(o))
      case KCNode(bits) => Some(if bits == 0 then IrqHandlerCap(o) else CNodeCap(o, GetGuard(ps), GetGuardSize(ps)))
      case KFrame => Some(FrameCap(o, GetRights(ps), GetAsid(ps), GetCached(ps), GetMapping(ps)))
      case KPageTable => Some(PageTableCap(o, GetAsid(ps)))
      case KPageDirectory => Some(PageDirectoryCap(o, GetAsid(ps)))
      case KUpper(t) => Some(UpperCap(t, o, GetAsid(ps)))
      case KPlain(p) => Some(PlainCap(p, o))
  }

  // ----- the round trip of one cap -----

  /** The cap can point to an object of the kind. */
  predicate Fits(k: Kind, c: Cap) {
    match c
    case NullCap => false
    case ControlCap(_) => false
    case SchedControlCap(_) => false
    case EndpointCap(_, _, _) => k == KEndpoint
    case NotificationCap(_, _, _) => k == KNotification
    case RtReplyCap(_, _) => k == KRtReply
    case TcbCap(_) => k == KTcb
    case ReplyCap(_) => k == KTcb
    case MasterReplyCap(_) => k == KTcb
    case CNodeCap(_, _, _) => k.KCNode? && k.bits != 0
    case IrqHandlerCap(_) => k == KCNode(0)
    case FrameCap(_, _, _, _, _) => k == KFrame
    case PageTableCap(_, _) => k == KPageTable
    case PageDirectoryCap(_, _) => k == KPageDirectory
    case UpperCap(t, _, _) => k == KUpper(t)
    case PlainCap(p, _) => k == KPlain(p)
  }

  /** What printing keeps of a cap: the address space identifier of an upper table is not printed. */
  function Printed(c: Cap): Cap {
    if c.UpperCap? then c.(asid := None) else c
  }

  lemma {:induction false} FindAppend(a: seq<Param>, b: seq<Param>, t: Tag)
    ensures Find(a + b, t) == if Find(a, t).Some? then Find(a, t) else Find(b, t)
    decreases |a|
  {
    if a == [] {
      assert a + b == b;
    } else {
      assert (a + b)[1..] == a[1..] + b;
      FindAppend(a[1..], b, t);
    }
  }

  lemma {:induction false} CountAppend(a: seq<Param>, b: seq<Param>, t: Tag)
    ensures Count(a + b, t) == Count(a, t) + Count(b, t)
    decreases |a|
  {
    if a == [] {
      assert a + b == b;
    } else {
      assert (a + b)[1..] == a[1..] + b;
      CountAppend(a[1..], b, t);
    }
  }

  lemma {:induction false} RightsAppend(a: seq<Param>, b: seq<Param>)
    ensures GetRights(a + b) == GetRights(a) + GetRights(b)
    decreases |a|
  {
    if a == [] {
      assert a + b == b;
    } else {
      assert (a + b)[1..] == a[1..] + b;
      RightsAppend(a[1..], b);
    }
  }

  /** At most one parameter, and that of kind `t`. */
  predicate AtMost(ps: seq<Param>, t: Tag) {
    |ps| <= 1 && (ps != [] ==> TagOf(ps[0]) == t)
  }

  lemma {:induction false} ReadOne(ps: seq<Param>, own: Tag, t: Tag)
    requires AtMost(ps, own)
    ensures Count(ps, t) == (if t == own then |ps| else 0)
    ensures Find(ps, t) == (if ps != [] && t == own then Some(ps[0]) else None)
    ensures GetRights(ps) == (if ps != [] && ps[0].Rights? then ps[0].rights else {})
  {
    if ps != [] { assert ps[1..] == []; }
  }

  /** Reading two pieces of different kinds. */
  lemma {:induction false} ReadTwo(a: seq<Param>, own: Tag, b: seq<Param>, t: Tag)
    requires AtMost(a, own) && Count(b, own) == 0
    ensures Count(a + b, t) == (if t == own then |a| else Count(b, t))
    ensures Find(a + b, t) == (if t == own then (if a != [] then Some(a[0]) else None) else Find(b, t))
    ensures own != TRights ==> GetRights(a + b) == GetRights(b)
  {
    ReadOne(a, own, t);
    CountAppend(a, b, t);
    FindAppend(a, b, t);
    RightsAppend(a, b);
    if t == own { NotFound(b, t); }
  }

  lemma {:induction false} NotFound(ps: seq<Param>, t: Tag)
    requires Count(ps, t) == 0
    ensures Find(ps, t) == None
    ensures t == TRights ==> GetRights(ps) == {}
    decreases |ps|
  {
    if ps != [] { NotFound(ps[1..], t); }
  }

  /** A cap read back from its printed parameters is what printing keeps of it. */
  lemma {:induction false} ParamsRoundTrip(k: Kind, c: Cap, o: ObjId)
    requires Fits(k, c)
    ensures CapFrom(k, o, ParamsOf(c)) == Some(Printed(To(c, o)))
  {
    match c
    case EndpointCap(_, badge, rights) => BadgeAndRights(badge, rights);
    case NotificationCap(_, badge, rights) => BadgeAndRights(badge, rights);
    case CNodeCap(_, guard, size) => GuardAndSize(guard, size);
    case FrameCap(_, rights, asid, cached, mapping) => FrameParams(rights, asid, cached, mapping);
    case _ => FewParams(k, c, o);
  }

  lemma {:induction false} FewParams(k: Kind, c: Cap, o: ObjId)
    requires Fits(k, c) && !c.EndpointCap? && !c.NotificationCap? && !c.CNodeCap? && !c.FrameCap?
    ensures CapFrom(k, o, ParamsOf(c)) == Some(Printed(To(c, o)))
  {
    match c
    case RtReplyCap(_, rights) => OneParam(IfRights(rights), TRights);
    case PageTableCap(_, asid) => OneParam(IfAsid(asid), TAsid);
    case PageDirectoryCap(_, asid) => OneParam(IfAsid(asid), TAsid);
    case ReplyCap(_) => OneParam([Reply], TReply);
    case MasterReplyCap(_) => OneParam([MasterReply], TMasterReply);
    case _ =>
  }

  lemma {:induction false} OneParam(ps: seq<Param>, own: Tag)
    requires AtMost(ps, own)
    ensures AtMostOnce(ps, {own}) && (forall t :: Count(ps, t) == if t == own then |ps| else 0)
    ensures Find(ps, own) == (if ps != [] then Some(ps[0]) else None)
    ensures GetRights(ps) == (if ps != [] && ps[0].Rights? then ps[0].rights else {})
  {
    ReadOne(ps, own, own);
    forall t ensures Count(ps, t) == if t == own then |ps| else 0 { ReadOne(ps, own, t); }
  }

  lemma {:induction false} BadgeAndRights(badge: nat, rights: set<Right>)
    ensures var ps := IfNonzero(badge, Badge(badge)) + IfRights(rights);
            AtMostOnceWithRights(ps, {TBadge}) && GetBadge(ps) == badge && GetRights(ps) == rights
  {
    var a, b := IfNonzero(badge, Badge(badge)), IfRights(rights);
    ReadOne(b, TRights, TBadge);
    forall t ensures Count(a + b, t) == if t == TBadge then |a| else if t == TRights then |b| else 0 {
      ReadOne(b, TRights, t);
      ReadTwo(a, TBadge, b, t);
    }
    ReadTwo(a, TBadge, b, TBadge);
  }

  lemma {:induction false} GuardAndSize(guard: nat, size: nat)
    ensures var ps := IfNonzero(guard, Guard(guard)) + IfNonzero(size, GuardSize(size));
            AtMostOnce(ps, {TGuard, TGuardSize}) && GetGuard(ps) == guard && GetGuardSize(ps) == size
  {
    var a, b := IfNonzero(guard, Guard(guard)), IfNonzero(size, GuardSize(size));
    ReadOne(b, TGuardSize, TGuard);
    ReadOne(b, TGuardSize, TGuardSize);
    forall t ensures Count(a + b, t) == if t == TGuard then |a| else if t == TGuardSize then |b| else 0 {
      ReadOne(b, TGuardSize, t);
      ReadTwo(a, TGuard, b, t);
    }
    ReadTwo(a, TGuard, b, TGuard);
    ReadTwo(a, TGuard, b, TGuardSize);
  }

  lemma {:induction false} FrameParam(a: seq<Param>, b: seq<Param>, c: seq<Param>, d: seq<Param>, t: Tag)
    requires AtMost(a, TRights) && AtMost(b, TAsid) && AtMost(c, TCached) && AtMost(d, TMapping)
    ensures var ps := a + (b + (c + d));
            var own := if t == TRights then a else if t == TAsid then b
                       else if t == TCached then c else if t == TMapping then d else [];
            Count(ps, t) == |own| && Find(ps, t) == if own == [] then None else Some(own[0])
    ensures GetRights(a + (b + (c + d))) == if a == [] then {} else a[0].rights
  {
    ReadOne(d, TMapping, t);
    ReadOne(d, TMapping, TCached);
    ReadTwo(c, TCached, d, t);
    ReadOne(d, TMapping, TAsid);
    ReadTwo(c, TCached, d, TAsid);
    ReadTwo(b, TAsid, c + d, t);
    ReadOne(d, TMapping, TRights);
    ReadTwo(c, TCached, d, TRights);
    ReadTwo(b, TAsid, c + d, TRights);
    ReadTwo(a, TRights, b + (c + d), t);
    RightsAppend(a, b + (c + d));
    ReadOne(a, TRights, TRights);
    NotFound(b + (c + d), TRights);
  }

  lemma {:induction false} FrameParams(rights: set<Right>, asid: Option<Asid>, cached: bool,
                                       mapping: Option<(ObjId, nat)>)
    ensures var ps := IfRights(rights) + (IfAsid(asid) + (IfUncached(cached) + IfMapping(mapping)));
            && AtMostOnceWithRights(ps, {TAsid, TCached, TMapping})
            && GetRights(ps) == rights && GetAsid(ps) == asid && GetCached(ps) == cached && GetMapping(ps) == mapping
  {
    var a, b, c, d := IfRights(rights), IfAsid(asid), IfUncached(cached), IfMapping(mapping);
    forall t ensures t != TRights ==> Count(a + (b + (c + d)), t) <= if t in {TAsid, TCached, TMapping} then 1 else 0 {
      FrameParam(a, b, c, d, t);
    }
    FrameParam(a, b, c, d, TAsid);
    FrameParam(a, b, c, d, TCached);
    FrameParam(a, b, c, d, TMapping);
  }

  // ----- caps that are printed together -----

  /** `sameParams`: caps of different types count as having the same parameters. */
  predicate SameParams(c: Cap, d: Cap) {
    && (c.EndpointCap? && d.EndpointCap? ==> c.badge == d.badge && c.rights == d.rights)
    && (c.NotificationCap? && d.NotificationCap? ==> c.badge == d.badge && c.rights == d.rights)
    && (c.CNodeCap? && d.CNodeCap? ==> c.guard == d.guard && c.guardSize == d.guardSize)
    && (c.FrameCap? && d.FrameCap? ==>
         c.rights == d.rights && c.asid == d.asid && c.cached == d.cached && c.mapping == d.mapping)
    && (c.PageTableCap? && d.PageTableCap? ==> c.asid == d.asid)
    && (c.PageDirectoryCap? && d.PageDirectoryCap? ==> c.asid == d.asid)
    && (c.RtReplyCap? && d.RtReplyCap? ==> c.rights == d.rights)
  }

  predicate SameCap(c: Cap, d: Cap) {
    && HasObject(c) && HasObject(d) && c.id.index.Some? && d.id.index.Some?
    && c.id.name == d.id.name && SameParams(c, d)
  }

  /**
   Caps to objects of one kind that pass for the same differ, if at all, as thread, reply and master reply caps do.
   */
  lemma {:induction false} OnlyRepliesMix(k: Kind, c: Cap, d: Cap)
    requires Fits(k, c) && Fits(k, d) && SameCap(c, d) && Printed(c) == c && Printed(d) == d
    ensures To(c, d.id) != d <==> k == KTcb && (c.TcbCap? != d.TcbCap? || c.ReplyCap? != d.ReplyCap?)
  {
  }
}
