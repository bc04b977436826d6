/**
 Which parameter lists the elaborator accepts for a cap, and that the printer prints none that is longer
 than needed.
 */
module ParamReading {
  import opened Wrappers
  import opened Caps
  import opened CapParams

  // ----- counting parameters -----

  lemma {:induction false} CountIn(ps: seq<Param>, p: Param)
    requires p in ps
    ensures Count(ps, TagOf(p)) > 0
    decreases |ps|
  {
    if ps[0] != p { CountIn(ps[1..], p); }
  }

  lemma {:induction false} CountOut(ps: seq<Param>, t: Tag) returns (p: Param)
    requires Count(ps, t) > 0
    ensures p in ps && TagOf(p) == t
    decreases |ps|
  {
    if TagOf(ps[0]) == t { p := ps[0]; } else { p := CountOut(ps[1..], t); }
  }

  /** A parameter given once is the one found. */
  lemma {:induction false} FoundIs(ps: seq<Param>, p: Param)
    requires p in ps && Count(ps, TagOf(p)) <= 1
    ensures Find(ps, TagOf(p)) == Some(p)
    decreases |ps|
  {
    if ps[0] != p {
      CountIn(ps[1..], p);
      FoundIs(ps[1..], p);
    }
  }

  lemma {:induction false} RightsIn(ps: seq<Param>, p: Param)
    requires p in ps && p.Rights?
    ensures p.rights <= GetRights(ps)
    decreases |ps|
  {
    if ps[0] != p { RightsIn(ps[1..], p); }
  }

  lemma {:induction false} CountTotal(ps: seq<Param>)
    ensures |ps| == Count(ps, TRights) + Count(ps, TGuard) + Count(ps, TGuardSize) + Count(ps, TBadge)
                    + Count(ps, TCore) + Count(ps, TReply) + Count(ps, TMasterReply) + Count(ps, TAsid)
                    + Count(ps, TCached) + Count(ps, TMapping)
    decreases |ps|
  {
    if ps != [] { CountTotal(ps[1..]); }
  }

  // ----- the shortest list of parameters -----

  /**
   Nothing is printed that could be left out: no shorter list of parameters is read as what printing keeps of the cap.
   */
  lemma {:induction false} ParamsShortest(k: Kind, c: Cap, o: ObjId, ps: seq<Param>)
    requires Fits(k, c) && CapFrom(k, o, ps) == Some(Printed(To(c, o)))
    ensures |ParamsOf(c)| <= |ps|
  {
    if c.FrameCap? { FrameShortest(c, o, ps); } else { OthersShortest(k, c, o, ps); }
  }

  lemma {:induction false} FrameShortest(c: Cap, o: ObjId, ps: seq<Param>)
    requires c.FrameCap? && CapFrom(KFrame, o, ps) == Some(To(c, o))
    ensures |ParamsOf(c)| <= |ps|
  {
    CountTotal(ps);
    AbsentIsDefault(ps);
  }

  lemma {:induction false} OthersShortest(k: Kind, c: Cap, o: ObjId, ps: seq<Param>)
    requires Fits(k, c) && !c.FrameCap? && CapFrom(k, o, ps) == Some(Printed(To(c, o)))
    ensures |ParamsOf(c)| <= |ps|
  {
    CountTotal(ps);
    AbsentIsDefault(ps);
  }

  /** What is not given is read as the value that is not printed. */
  lemma {:induction false} AbsentIsDefault(ps: seq<Param>)
    ensures Count(ps, TRights) == 0 ==> GetRights(ps) == {}
    ensures Count(ps, TBadge) == 0 ==> GetBadge(ps) == 0
    ensures Count(ps, TGuard) == 0 ==> GetGuard(ps) == 0
    ensures Count(ps, TGuardSize) == 0 ==> GetGuardSize(ps) == 0
    ensures Count(ps, TAsid) == 0 ==> GetAsid(ps) == None
    ensures Count(ps, TCached) == 0 ==> GetCached(ps)
    ensures Count(ps, TMapping) == 0 ==> GetMapping(ps) == None
  {
    forall t | Count(ps, t) == 0 ensures Find(ps, t) == None { NotFound(ps, t); }
    if Count(ps, TRights) == 0 { NotFound(ps, TRights); }
  }

  // ----- which lists are accepted -----

  /** The cap is as the parameter says. */
  predicate Shows(c: Cap, p: Param) {
    match p
    case Rights(r) => (c.EndpointCap? || c.NotificationCap? || c.RtReplyCap? || c.FrameCap?) && r <= c.rights
    case Guard(g) => c.CNodeCap? && c.guard == g
    case GuardSize(n) => c.CNodeCap? && c.guardSize == n
    case Badge(b) => (c.EndpointCap? || c.NotificationCap?) && c.badge == b
    case Core(n) => c.SchedControlCap? && c.core == n
    case Reply => c.ReplyCap?
    case MasterReply => c.MasterReplyCap?
    case AsidParam(a) =>
      (c.FrameCap? || c.PageTableCap? || c.PageDirectoryCap? || c.UpperCap?) && c.asid == Some(a)
    case Cached(b) => c.FrameCap? && c.cached == b
    case FrameMapping(o, s) => c.FrameCap? && c.mapping == Some((o, s))
  }

  predicate ShowsAll(c: Cap, ps: seq<Param>) {
    forall p :: p in ps ==> Shows(c, p)
  }

  /** No parameter is given twice; rights may be, except for reply objects. */
  predicate NoneTwice(k: Kind, ps: seq<Param>) {
    forall t :: t != TRights || k == KRtReply ==> Count(ps, t) <= 1
  }

  /** There is a cap to the object that is as all parameters say. */
  ghost predicate Consistent(k: Kind, o: ObjId, ps: seq<Param>) {
    exists c :: Fits(k, c) && c.id == o && ShowsAll(c, ps)
  }

  /** Of these kinds none is missing from the cap read. */
  lemma {:induction false} ReadShows(k: Kind, o: ObjId, ps: seq<Param>)
    requires k != KCNode(0) && CapFrom(k, o, ps).Some?
    ensures var c := CapFrom(k, o, ps).value; Fits(k, c) && c.id == o && ShowsAll(c, ps)
    ensures NoneTwice(k, ps)
  {
    var c := CapFrom(k, o, ps).value;
    forall p | p in ps ensures Shows(c, p) {
      CountIn(ps, p);
      if p.Rights? { RightsIn(ps, p); } else { FoundIs(ps, p); }
    }
  }

  /** Parameters that the cap cannot show are not given. */
  lemma {:induction false} OthersAbsent(c: Cap, ps: seq<Param>, allowed: set<Tag>)
    requires ShowsAll(c, ps) && forall p :: Shows(c, p) ==> TagOf(p) in allowed
    ensures forall t :: t !in allowed ==> Count(ps, t) == 0
  {
    forall t | t !in allowed ensures Count(ps, t) == 0 {
      if Count(ps, t) > 0 { var p := CountOut(ps, t); }
    }
  }

  lemma {:induction false} ShownValid(k: Kind, c: Cap, ps: seq<Param>)
    requires Fits(k, c) && ShowsAll(c, ps) && NoneTwice(k, ps)
    ensures ValidParams(k, ps)
  {
    match k
    case KEndpoint => OthersAbsent(c, ps, {TRights, TBadge});
    case KNotification => OthersAbsent(c, ps, {TRights, TBadge});
    case KRtReply => OthersAbsent(c, ps, {TRights});
    case KTcb => ThreadValid(c, ps);
    case KCNode(_) => OthersAbsent(c, ps, {TGuard, TGuardSize});
    case KFrame => OthersAbsent(c, ps, {TRights, TAsid, TCached, TMapping});
    case KPageTable => OthersAbsent(c, ps, {TAsid});
    case KPageDirectory => OthersAbsent(c, ps, {TAsid});
    case KUpper(_) => OthersAbsent(c, ps, {TAsid});
    case KPlain(_) =>
      OthersAbsent(c, ps, {});
      CountTotal(ps);
  }

  lemma {:induction false} ThreadValid(c: Cap, ps: seq<Param>)
    requires Fits(KTcb, c) && ShowsAll(c, ps) && NoneTwice(KTcb, ps)
    ensures ValidParams(KTcb, ps)
  {
    OthersAbsent(c, ps, if c.ReplyCap? then {TReply} else if c.MasterReplyCap? then {TMasterReply} else {});
  }

  /**
   A list of parameters is accepted if and only if some cap of the kind is as all of them say and none is given twice.
   The cap read is then such a cap. Kinds of size zero are another matter: see below.
   */
  lemma {:induction false} ReadExact(k: Kind, o: ObjId, ps: seq<Param>)
    requires k != KCNode(0)
    ensures CapFrom(k, o, ps).Some? <==> Consistent(k, o, ps) && NoneTwice(k, ps)
    ensures CapFrom(k, o, ps).Some? ==> ShowsAll(CapFrom(k, o, ps).value, ps)
  {
    if CapFrom(k, o, ps).Some? { ReadShows(k, o, ps); }
    if Consistent(k, o, ps) && NoneTwice(k, ps) {
      var c :| Fits(k, c) && c.id == o && ShowsAll(c, ps);
      ShownValid(k, c, ps);
    }
  }

  /** A cap to a CNode of size zero is an interrupt handler cap, and a guard given for it is accepted and lost. */
  lemma {:induction false} GuardIgnored(o: ObjId, g: nat)
    ensures CapFrom(KCNode(0), o, [Guard(g)]) == Some(IrqHandlerCap(o)) && !Shows(IrqHandlerCap(o), Guard(g))
  {
    OneParam([Guard(g)], TGuard);
  }
}
