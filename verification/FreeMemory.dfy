/**
 `init_freemem`: the reserved regions are taken out of the available ones by walking both queues once.
 */
module FreeMemory {
  import opened Wrappers
  import opened Arithmetic

  datatype Region = Region(start: nat, end: nat)

  predicate In(x: int, r: Region) {
    r.start <= x < r.end
  }

  ghost predicate InSome(x: int, rs: seq<Region>) {
    exists i :: 0 <= i < |rs| && In(x, rs[i])
  }

  predicate Meets(r: Region, a: Region) {
    r.start < a.end && a.start < r.end && a.start < a.end
  }

  predicate Empty(r: Region) {
    r.start == r.end
  }

  /** Ordered and pairwise disjoint. */
  predicate Disjoint(rs: seq<Region>) {
    && (forall i :: 0 <= i < |rs| ==> rs[i].start <= rs[i].end)
    && (forall i, j :: 0 <= i < j < |rs| ==> rs[i].end <= rs[j].start)
  }

  /** Ordered by start; regions may overlap. */
  predicate ByStart(rs: seq<Region>) {
    && (forall i :: 0 <= i < |rs| ==> rs[i].start <= rs[i].end)
    && (forall i, j :: 0 <= i < j < |rs| ==> rs[i].start <= rs[j].start)
  }

  // ----- the loop -----

  function Prepend(r: Region, rest: Option<seq<Region>>): Option<seq<Region>> {
    match rest
    case None => None
    case Some(f) => Some([r] + f)
  }

  /** An empty reserved region at the front is dropped, and the same round goes on with the next one. */
  function SkipEmpty(rs: seq<Region>): seq<Region>
    requires rs != []
  {
    if Empty(rs[0]) then rs[1..] else rs
  }

  /** What the loop still adds to the free regions; `None` if it looks at the front of an empty queue. */
  function FreeMem(av: seq<Region>, reserved: seq<Region>): Option<seq<Region>>
    decreases |av| + |reserved|
  {
    if av == [] || reserved == [] then Some(av)
    else
      var rs := SkipEmpty(reserved);
      if av[0].start >= av[0].end then FreeMem(av[1..], rs)
      else if rs == [] then None
      else Round(av, rs)
  }

  /** One round with both fronts present. */
  function Round(av: seq<Region>, rs: seq<Region>): Option<seq<Region>>
    requires av != [] && rs != []
    decreases |av| + |rs|, 0
  {
    var a, r := av[0], rs[0];
    if r.end <= a.start then FreeMem(av, rs[1..])
    else if r.start >= a.end then Prepend(a, FreeMem(av[1..], rs))
    else if r.start <= a.start then FreeMem(TrimTo(av, Min(a.end, r.end)), rs[1..])
    else if a.end > r.end then Prepend(Region(a.start, r.start), FreeMem(TrimTo(av, r.end), rs[1..]))
    else Prepend(Region(a.start, r.start), FreeMem(av[1..], rs))
  }

  /** The front region, starting later. */
  function TrimTo(av: seq<Region>, start: nat): (r: seq<Region>)
    requires av != []
    ensures |r| == |av|
  {
    [Region(start, av[0].end)] + av[1..]
  }

  // ----- nothing is added, nothing unreserved is lost -----

  lemma {:induction false} TailDisjoint(rs: seq<Region>)
    requires rs != [] && Disjoint(rs)
    ensures Disjoint(rs[1..])
  {
  }

  lemma {:induction false} TrimStaysDisjoint(av: seq<Region>, start: nat)
    requires av != [] && Disjoint(av) && av[0].start <= start <= av[0].end
    ensures Disjoint(TrimTo(av, start)) && TrimTo(av, start)[1..] == av[1..]
  {
  }

  lemma {:induction false} TrimDisjoint(av: seq<Region>, start: nat)
    requires av != [] && Disjoint(av) && av[0].start <= start <= av[0].end
    ensures Disjoint(TrimTo(av, start))
    ensures forall x :: InSome(x, TrimTo(av, start)) <==> InSome(x, av) && !(av[0].start <= x < start)
  {
    var b := TrimTo(av, start);
    assert forall i :: 1 <= i < |av| ==> b[i] == av[i];
    forall x ensures InSome(x, b) <==> InSome(x, av) && !(av[0].start <= x < start) {
      if i :| 0 <= i < |b| && In(x, b[i]) { assert In(x, av[i]); }
      if i :| 0 <= i < |av| && In(x, av[i]) && !(av[0].start <= x < start) { assert In(x, b[i]); }
    }
  }

  lemma {:induction false} InTail(rs: seq<Region>)
    requires rs != []
    ensures forall x :: InSome(x, rs) <==> In(x, rs[0]) || InSome(x, rs[1..])
  {
    forall x ensures InSome(x, rs) <==> In(x, rs[0]) || InSome(x, rs[1..]) {
      if i :| 0 <= i < |rs| && In(x, rs[i]) { if i > 0 { assert In(x, rs[1..][i - 1]); } }
      if i :| 0 <= i < |rs[1..]| && In(x, rs[1..][i]) { assert In(x, rs[i + 1]); }
    }
  }

  /** Free regions from `f` in the given order, all between `lo` and the end of the last available region. */
  predicate From(f: seq<Region>, lo: nat) {
    Disjoint(f) && forall i :: 0 <= i < |f| ==> lo <= f[i].start
  }

  /** The result is ordered, disjoint, made of available addresses only, and has all that are not reserved. */
  ghost predicate Between(f: seq<Region>, av: seq<Region>, rs: seq<Region>) {
    && (av == [] ==> f == [])
    && (av != [] ==> From(f, av[0].start))
    && (forall x :: InSome(x, f) ==> InSome(x, av))
    && (forall x :: InSome(x, av) && !InSome(x, rs) ==> InSome(x, f))
  }

  lemma {:induction false} FreeMemBetween(av: seq<Region>, reserved: seq<Region>)
    requires Disjoint(av) && FreeMem(av, reserved).Some?
    requires forall i :: 0 <= i < |reserved| ==> reserved[i].start <= reserved[i].end
    ensures Between(FreeMem(av, reserved).value, av, reserved)
    decreases |av| + |reserved|
  {
    if av != [] && reserved != [] {
      InTail(av);
      InTail(reserved);
      TailDisjoint(av);
      var rs := SkipEmpty(reserved);
      if av[0].start >= av[0].end {
        FreeMemBetween(av[1..], rs);
        Lower(FreeMem(av[1..], rs).value, av);
      } else {
        RoundBetween(av, rs);
      }
    }
  }

  lemma {:induction false} Lower(f: seq<Region>, av: seq<Region>)
    requires av != [] && Disjoint(av) && (|av| == 1 ==> f == []) && (|av| > 1 ==> From(f, av[1].start))
    ensures From(f, av[0].end) && From(f, av[0].start)
  {
  }

  lemma {:induction false} PrependFrom(r: Region, f: seq<Region>)
    requires r.start <= r.end && From(f, r.end)
    ensures From([r] + f, r.start)
    ensures forall x :: InSome(x, [r] + f) <==> In(x, r) || InSome(x, f)
  {
    InTail([r] + f);
    assert ([r] + f)[1..] == f;
  }

  lemma {:induction false} RoundBetween(av: seq<Region>, rs: seq<Region>)
    requires av != [] && rs != [] && Disjoint(av) && av[0].start < av[0].end && Round(av, rs).Some?
    requires forall i :: 0 <= i < |rs| ==> rs[i].start <= rs[i].end
    ensures Between(Round(av, rs).value, av, rs)
    decreases |av| + |rs|, 0
  {
    var a, r := av[0], rs[0];
    InTail(av);
    InTail(rs);
    TailDisjoint(av);
    if r.end <= a.start {
      FreeMemBetween(av, rs[1..]);
    } else if r.start >= a.end {
      FreeMemBetween(av[1..], rs);
      var f := FreeMem(av[1..], rs).value;
      Lower(f, av);
      PrependFrom(a, f);
    } else if r.start <= a.start {
      TrimDisjoint(av, Min(a.end, r.end));
      FreeMemBetween(TrimTo(av, Min(a.end, r.end)), rs[1..]);
    } else if a.end > r.end {
      TrimDisjoint(av, r.end);
      FreeMemBetween(TrimTo(av, r.end), rs[1..]);
      PrependFrom(Region(a.start, r.start), FreeMem(TrimTo(av, r.end), rs[1..]).value);
    } else {
      FreeMemBetween(av[1..], rs);
      var f := FreeMem(av[1..], rs).value;
      Lower(f, av);
      PrependFrom(Region(a.start, r.start), f);
    }
  }

  // ----- when reserved addresses are kept by mistake -----

  /** By the time region `i` is looked at, the start of available region `j` may have moved up to it. */
  ghost predicate Reached(av: seq<Region>, rs: seq<Region>, i: int, j: int)
    requires 0 <= i < |rs| && 0 <= j < |av|
  {
    rs[i].start <= av[j].start || exists k :: 0 <= k < i && rs[k].end >= rs[i].start
  }

  /**
   Reserved region `i` is dropped after trimming the start of available region `j` although it goes on into the next
   available region.
   */
  ghost predicate Spills(av: seq<Region>, rs: seq<Region>, i: int, j: int) {
    && 0 <= i < |rs| && 0 <= j < |av| - 1
    && Meets(rs[i], av[j]) && rs[i].end > av[j + 1].start && Reached(av, rs, i, j)
  }

  ghost predicate Spilling(av: seq<Region>, rs: seq<Region>) {
    exists i, j :: Spills(av, rs, i, j)
  }

  /** Dropping the front reserved region, and trimming to no further than its end, brings no spill about. */
  lemma {:induction false} SpillWasThere(av: seq<Region>, start: nat, rs: seq<Region>, i: int, j: int)
    requires av != [] && rs != [] && Spills(TrimTo(av, start), rs[1..], i, j)
    requires start == av[0].start || av[0].start <= start <= rs[0].end
    ensures Spills(av, rs, i + 1, j)
  {
    var b, qs := TrimTo(av, start), rs[1..];
    assert qs[i] == rs[i + 1];
    assert j > 0 ==> b[j] == av[j];
    assert Meets(rs[i + 1], av[j]);
    if k :| 0 <= k < i && qs[k].end >= qs[i].start { assert rs[k + 1].end >= rs[i + 1].start; }
  }

  lemma {:induction false} NoNewSpill(av: seq<Region>, start: nat, rs: seq<Region>)
    requires av != [] && rs != [] && !Spilling(av, rs)
    requires start == av[0].start || av[0].start <= start <= rs[0].end
    ensures !Spilling(TrimTo(av, start), rs[1..])
  {
    forall i, j ensures !Spills(TrimTo(av, start), rs[1..], i, j) {
      if Spills(TrimTo(av, start), rs[1..], i, j) {
        SpillWasThere(av, start, rs, i, j);
        assert false;
      }
    }
  }

  lemma {:induction false} NoNewSpillTail(av: seq<Region>, rs: seq<Region>)
    requires av != [] && !Spilling(av, rs)
    ensures !Spilling(av[1..], rs)
  {
    forall i, j ensures !Spills(av[1..], rs, i, j) {
      if Spills(av[1..], rs, i, j) {
        assert Spills(av, rs, i, j + 1);
        assert false;
      }
    }
  }

  ghost predicate Avoids(f: seq<Region>, rs: seq<Region>) {
    forall x :: InSome(x, f) ==> !InSome(x, rs)
  }

  /** Without a spill no reserved address is kept, also when reserved regions overlap each other. */
  lemma {:induction false} NoSpillAvoids(av: seq<Region>, reserved: seq<Region>)
    requires Disjoint(av) && ByStart(reserved) && FreeMem(av, reserved).Some? && !Spilling(av, reserved)
    ensures Avoids(FreeMem(av, reserved).value, reserved)
    decreases |av| + |reserved|
  {
    if av != [] && reserved != [] {
      TailDisjoint(av);
      InTail(reserved);
      var rs := SkipEmpty(reserved);
      if Empty(reserved[0]) {
        NoNewSpill(av, av[0].start, reserved);
        assert TrimTo(av, av[0].start) == av;
      }
      if av[0].start >= av[0].end {
        NoNewSpillTail(av, rs);
        NoSpillAvoids(av[1..], rs);
      } else {
        RoundAvoids(av, rs);
      }
    }
  }

  lemma {:induction false} RoundAvoids(av: seq<Region>, rs: seq<Region>)
    requires av != [] && rs != [] && Disjoint(av) && ByStart(rs) && av[0].start < av[0].end
    requires Round(av, rs).Some? && !Spilling(av, rs)
    ensures Avoids(Round(av, rs).value, rs)
    decreases |av| + |rs|, 0
  {
    var a, r := av[0], rs[0];
    TailDisjoint(av);
    if r.end <= a.start {
      NoNewSpill(av, a.start, rs);
      assert TrimTo(av, a.start) == av;
      NoSpillAvoids(av, rs[1..]);
      DroppedAvoided(av, rs);
    } else if r.start >= a.end {
      NoNewSpillTail(av, rs);
      NoSpillAvoids(av[1..], rs);
      BeforeAll(a, FreeMem(av[1..], rs).value, rs);
    } else if r.start <= a.start {
      assert !Spills(av, rs, 0, 0);
      var b := TrimTo(av, Min(a.end, r.end));
      TrimStaysDisjoint(av, Min(a.end, r.end));
      NoNewSpill(av, Min(a.end, r.end), rs);
      NoSpillAvoids(b, rs[1..]);
      assert |av| > 1 ==> r.end <= av[1].start;
      DroppedAvoided(b, rs);
    } else if a.end > r.end {
      TrimStaysDisjoint(av, r.end);
      NoNewSpill(av, r.end, rs);
      var b := TrimTo(av, r.end);
      NoSpillAvoids(b, rs[1..]);
      DroppedAvoided(b, rs);
      BeforeAll(Region(a.start, r.start), FreeMem(b, rs[1..]).value, rs);
    } else {
      NoNewSpillTail(av, rs);
      NoSpillAvoids(av[1..], rs);
      BeforeAll(Region(a.start, r.start), FreeMem(av[1..], rs).value, rs);
    }
  }

  /** A reserved region may be dropped when no available address beyond it is inside it. */
  lemma {:induction false} DroppedAvoided(b: seq<Region>, rs: seq<Region>)
    requires rs != [] && ByStart(rs) && Disjoint(b) && b != []
    requires rs[0].end <= b[0].start || b[0].start >= b[0].end
    requires |b| > 1 ==> rs[0].end <= b[1].start
    requires FreeMem(b, rs[1..]).Some? && Avoids(FreeMem(b, rs[1..]).value, rs[1..])
    ensures Avoids(FreeMem(b, rs[1..]).value, rs)
  {
    InTail(rs);
    FreeMemBetween(b, rs[1..]);
    forall x | InSome(x, b) ensures !In(x, rs[0]) {
      var i :| 0 <= i < |b| && In(x, b[i]);
    }
  }

  lemma {:induction false} BeforeAll(a: Region, f: seq<Region>, rs: seq<Region>)
    requires rs != [] && ByStart(rs) && a.end <= rs[0].start && Avoids(f, rs)
    ensures Avoids([a] + f, rs)
  {
    InTail([a] + f);
    assert ([a] + f)[1..] == f;
  }

  // ----- a spill always loses an address -----

  predicate NonEmpty(rs: seq<Region>) {
    forall i :: 0 <= i < |rs| ==> rs[i].start < rs[i].end
  }

  lemma {:induction false} NoIndexError(av: seq<Region>, rs: seq<Region>)
    requires rs != [] ==> !Empty(rs[|rs| - 1])
    ensures FreeMem(av, rs).Some?
    decreases |av| + |rs|
  {
    if av != [] && rs != [] {
      var a, qs := av[0], SkipEmpty(rs);
      if a.start >= a.end {
        NoIndexError(av[1..], qs);
      } else {
        var r := qs[0];
        if r.end <= a.start {
          NoIndexError(av, qs[1..]);
        } else if r.start >= a.end {
          NoIndexError(av[1..], qs);
        } else if r.start <= a.start {
          NoIndexError(TrimTo(av, Min(a.end, r.end)), qs[1..]);
        } else if a.end > r.end {
          NoIndexError(TrimTo(av, r.end), qs[1..]);
        } else {
          NoIndexError(av[1..], qs);
        }
      }
    }
  }

  /** Some address is kept although it is reserved. */
  ghost predicate Leaks(av: seq<Region>, rs: seq<Region>, x: int) {
    FreeMem(av, rs).Some? && InSome(x, FreeMem(av, rs).value) && InSome(x, rs)
  }

  /** The front region is dropped while it reaches into the second available region, whose first byte is then kept. */
  lemma {:induction false} SpillNow(av: seq<Region>, rs: seq<Region>) returns (x: int)
    requires |av| > 1 && rs != [] && Disjoint(av) && av[0].start < av[0].end && av[1].start < av[1].end
             && Disjoint(rs) && NonEmpty(rs)
    requires rs[0].start <= av[0].start && rs[0].end > av[1].start
    ensures Leaks(av, rs, x)
  {
    x := av[1].start;
    var start := Min(av[0].end, rs[0].end);
    var b := TrimTo(av, start);
    assert In(x, av[1]) && In(x, rs[0]) && In(x, b[1]);
    assert InSome(x, b) && InSome(x, rs);
    assert !InSome(x, rs[1..]);
    TrimDisjoint(av, start);
    NoIndexError(b, rs[1..]);
    FreeMemBetween(b, rs[1..]);
  }

  /** A spill stays one when the front available region is used up. */
  lemma {:induction false} SpillInTail(av: seq<Region>, rs: seq<Region>, i: int, j: int)
    requires Disjoint(av) && Disjoint(rs) && Spills(av, rs, i, j)
    requires var a, r := av[0], rs[0]; a.start >= a.end || r.start >= a.end || (r.start > a.start && a.end <= r.end)
    ensures j > 0 && Spills(av[1..], rs, i, j - 1)
  {
    assert j > 0;
    assert av[1..][j - 1] == av[j] && av[1..][j] == av[j + 1];
  }

  /** A spill stays one when the front reserved region, reaching no further than the gap, is used up. */
  lemma {:induction false} SpillShifted(av: seq<Region>, b: seq<Region>, rs: seq<Region>, i: int, j: int)
    requires Disjoint(av) && Disjoint(rs) && NonEmpty(rs) && Spills(av, rs, i, j)
    requires |b| == |av| && b[1..] == av[1..] && rs[0].end <= av[1].start
    requires b[0].end == av[0].end && av[0].start <= b[0].start && Min(av[0].end, rs[0].end) <= b[0].start
    requires b[0].start <= rs[0].end || b[0].start == av[0].start
    ensures i > 0 && Spills(b, rs[1..], i - 1, j)
  {
    assert j > 0 ==> b[1..][j - 1] == b[j] && av[1..][j - 1] == av[j];
    assert b[1..][j] == b[j + 1] && av[1..][j] == av[j + 1];
    assert i > 0;
    var qs := rs[1..];
    assert qs[i - 1] == rs[i] && rs[0].end <= rs[i].start;
    assert Meets(qs[i - 1], b[j]);
    if rs[i].start > av[j].start {
      var k :| 0 <= k < i && rs[k].end >= rs[i].start;
      if k > 0 { assert qs[k - 1].end >= qs[i - 1].start; }
    }
    assert Reached(b, qs, i - 1, j);
  }

  lemma {:induction false} InPrepended(a: Region, f: seq<Region>, x: int)
    requires InSome(x, f)
    ensures InSome(x, [a] + f)
  {
    var i :| 0 <= i < |f| && In(x, f[i]);
    assert In(x, ([a] + f)[i + 1]);
  }

  /** What is kept of the rest is kept of the whole, when the front available region is used up. */
  lemma {:induction false} KeptOfTail(av: seq<Region>, rs: seq<Region>, x: int)
    requires av != [] && rs != [] && NonEmpty(rs) && Leaks(av[1..], rs, x)
    requires var a, r := av[0], rs[0]; a.start >= a.end || r.start >= a.end || (r.start > a.start && a.end <= r.end)
    ensures Leaks(av, rs, x)
  {
    var a, f := av[0], FreeMem(av[1..], rs).value;
    InPrepended(a, f, x);
    InPrepended(Region(a.start, rs[0].start), f, x);
  }

  /** When the front reserved region lies below. */
  lemma {:induction false} KeptOfSkip(av: seq<Region>, rs: seq<Region>, x: int)
    requires av != [] && rs != [] && NonEmpty(rs) && Leaks(av, rs[1..], x)
    requires av[0].start < av[0].end && rs[0].end <= av[0].start
    ensures Leaks(av, rs, x)
  {
    InTail(rs);
  }

  /** And when the front reserved region has been cut out of it. */
  lemma {:induction false} KeptOfCut(av: seq<Region>, rs: seq<Region>, x: int)
    requires av != [] && rs != [] && NonEmpty(rs) && Meets(rs[0], av[0])
    requires rs[0].start <= av[0].start || rs[0].end < av[0].end
    requires Leaks(TrimTo(av, Min(av[0].end, rs[0].end)), rs[1..], x)
    ensures Leaks(av, rs, x)
  {
    var a, r := av[0], rs[0];
    InTail(rs);
    InPrepended(Region(a.start, r.start), FreeMem(TrimTo(av, Min(a.end, r.end)), rs[1..]).value, x);
  }

  lemma {:induction false} KeptOfRest(av: seq<Region>, b: seq<Region>, rs: seq<Region>, x: int)
    requires rs != [] && NonEmpty(rs) && UsesUp(av, b, rs[0]) && Leaks(b, rs[1..], x)
    ensures Leaks(av, rs, x)
  {
    if rs[0].end <= av[0].start { KeptOfSkip(av, rs, x); } else { KeptOfCut(av, rs, x); }
  }

  lemma {:induction false} SpillRest(av: seq<Region>, b: seq<Region>, rs: seq<Region>, i: int, j: int)
    requires Disjoint(av) && TailNonEmpty(av) && Disjoint(rs) && NonEmpty(rs) && Spills(av, rs, i, j)
    requires UsesUp(av, b, rs[0]) && rs[0].end <= av[1].start
    ensures Disjoint(b) && TailNonEmpty(b) && i > 0 && Spills(b, rs[1..], i - 1, j)
  {
    if b != av { TrimStaysDisjoint(av, Min(av[0].end, rs[0].end)); }
    SpillShifted(av, b, rs, i, j);
  }

  /** Every spill makes the loop keep a reserved address. */
  lemma {:induction false} SpillLeaks(av: seq<Region>, rs: seq<Region>, i: int, j: int) returns (x: int)
    requires Disjoint(av) && TailNonEmpty(av) && Disjoint(rs) && NonEmpty(rs) && Spills(av, rs, i, j)
    ensures Leaks(av, rs, x)
    decreases |av| + |rs|, 1
  {
    var a, r := av[0], rs[0];
    if a.start >= a.end || r.start >= a.end || (r.start > a.start && a.end <= r.end) {
      x := TailLeaks(av, rs, i, j);
    } else if r.start <= a.start < r.end && r.end > av[1].start {
      x := SpillNow(av, rs);
    } else {
      x := RestLeaks(av, if r.end <= a.start then av else TrimTo(av, Min(a.end, r.end)), rs, i, j);
    }
  }

  lemma {:induction false} TailLeaks(av: seq<Region>, rs: seq<Region>, i: int, j: int) returns (x: int)
    requires Disjoint(av) && TailNonEmpty(av) && Disjoint(rs) && NonEmpty(rs) && Spills(av, rs, i, j)
    requires var a, r := av[0], rs[0]; a.start >= a.end || r.start >= a.end || (r.start > a.start && a.end <= r.end)
    ensures Leaks(av, rs, x)
    decreases |av| + |rs|, 0
  {
    TailDisjoint(av);
    SpillInTail(av, rs, i, j);
    x := SpillLeaks(av[1..], rs, i, j - 1);
    KeptOfTail(av, rs, x);
  }

  lemma {:induction false} RestLeaks(av: seq<Region>, b: seq<Region>, rs: seq<Region>, i: int, j: int) returns (x: int)
    requires Disjoint(av) && TailNonEmpty(av) && Disjoint(rs) && NonEmpty(rs) && Spills(av, rs, i, j)
    requires UsesUp(av, b, rs[0]) && rs[0].end <= av[1].start
    ensures Leaks(av, rs, x)
    decreases |av| + |rs|, 0
  {
    TailDisjoint(rs);
    SpillRest(av, b, rs, i, j);
    x := SpillLeaks(b, rs[1..], i - 1, j);
    KeptOfRest(av, b, rs, x);
  }

  // ----- the main results -----

  /** The result holds exactly the available addresses that are not reserved. */
  ghost predicate Exact(f: seq<Region>, av: seq<Region>, rs: seq<Region>) {
    forall x :: InSome(x, f) <==> InSome(x, av) && !InSome(x, rs)
  }

  /** Interval subtraction is exact whenever nothing spills, however the reserved regions overlap. */
  lemma {:induction false} SubtractionExact(av: seq<Region>, rs: seq<Region>)
    requires Disjoint(av) && ByStart(rs) && (rs != [] ==> !Empty(rs[|rs| - 1])) && !Spilling(av, rs)
    ensures FreeMem(av, rs).Some? && Disjoint(FreeMem(av, rs).value) && Exact(FreeMem(av, rs).value, av, rs)
  {
    NoIndexError(av, rs);
    FreeMemBetween(av, rs);
    NoSpillAvoids(av, rs);
  }

  /** For disjoint reserved regions it is exact if and only if nothing spills. */
  lemma {:induction false} ExactIffNoSpill(av: seq<Region>, rs: seq<Region>)
    requires Disjoint(av) && NonEmpty(av) && Disjoint(rs) && NonEmpty(rs)
    ensures FreeMem(av, rs).Some? && Disjoint(FreeMem(av, rs).value)
    ensures Exact(FreeMem(av, rs).value, av, rs) <==> !Spilling(av, rs)
  {
    NoIndexError(av, rs);
    FreeMemBetween(av, rs);
    if Spilling(av, rs) {
      var i, j :| Spills(av, rs, i, j);
      var x := SpillLeaks(av, rs, i, j);
    } else {
      NoSpillAvoids(av, rs);
    }
  }

  // ----- reserved regions that overlap each other -----

  /**
   How far the region gets: it is dropped with the first available region of which it finds the start taken, and goes no
   further than that region.
   */
  function CutOff(av: seq<Region>, r: Region): nat {
    if av == [] then r.end
    else if Meets(r, av[0]) && r.start <= av[0].start then Min(av[0].end, r.end)
    else CutOff(av[1..], r)
  }

  /** The available regions when everything below `m` is taken. */
  function Raised(av: seq<Region>, m: nat): (b: seq<Region>)
    ensures |b| == |av|
    ensures forall i :: 0 <= i < |av| ==> b[i] == Region(if av[i].start < m then m else av[i].start, av[i].end)
  {
    seq(|av|, i requires 0 <= i < |av| => Region(if av[i].start < m then m else av[i].start, av[i].end))
  }

  /** One of the reserved regions takes the address before it is cut off. */
  predicate Removed(av: seq<Region>, rs: seq<Region>, x: int)
    decreases |rs|
  {
    rs != [] && (rs[0].start <= x < CutOff(av, rs[0]) || Removed(Raised(av, CutOff(av, rs[0])), rs[1..], x))
  }

  lemma {:induction false} TailByStart(rs: seq<Region>)
    requires rs != [] && ByStart(rs) && NonEmpty(rs)
    ensures ByStart(rs[1..]) && NonEmpty(rs[1..])
  {
  }

  /** A region that lies below all available ones, or ends inside the first, is not cut off. */
  lemma {:induction false} CutOffBelow(av: seq<Region>, r: Region)
    requires forall i :: 0 <= i < |av| ==> r.end <= av[i].start
    ensures CutOff(av, r) == r.end
  {
    if av != [] { CutOffBelow(av[1..], r); }
  }

  lemma {:induction false} CutOffAtLeast(av: seq<Region>, r: Region, m: nat)
    requires m <= r.end && forall i :: 0 <= i < |av| ==> m <= av[i].end
    ensures m <= CutOff(av, r) <= r.end
  {
    if av != [] { CutOffAtLeast(av[1..], r, m); }
  }

  /** An available region that is used up, or lies below all reserved ones, has no influence. */
  lemma {:induction false} DropFront(av: seq<Region>, rs: seq<Region>, x: int)
    requires av != []
    requires av[0].start >= av[0].end || forall i :: 0 <= i < |rs| ==> av[0].end <= rs[i].start
    ensures Removed(av, rs, x) == Removed(av[1..], rs, x)
    decreases |rs|
  {
    if rs != [] {
      var c := CutOff(av, rs[0]);
      assert c == CutOff(av[1..], rs[0]);
      DropFront(Raised(av, c), rs[1..], x);
      assert Raised(av, c)[1..] == Raised(av[1..], c);
    }
  }

  lemma {:induction false} NotRemoved(av: seq<Region>, rs: seq<Region>, x: int)
    requires forall i :: 0 <= i < |rs| ==> x < rs[i].start
    ensures !Removed(av, rs, x)
    decreases |rs|
  {
    if rs != [] { NotRemoved(Raised(av, CutOff(av, rs[0])), rs[1..], x); }
  }

  lemma {:induction false} RaisedFront(av: seq<Region>, m: nat)
    requires Disjoint(av) && av != [] && m <= av[0].end
    ensures Raised(av, m) == TrimTo(av, if av[0].start < m then m else av[0].start)
    ensures m <= av[0].start ==> Raised(av, m) == av
  {
    var b := TrimTo(av, if av[0].start < m then m else av[0].start);
    assert forall i :: 0 < i < |av| ==> b[i] == av[i] && m <= av[i].start;
  }

  ghost predicate Kept(f: seq<Region>, av: seq<Region>, rs: seq<Region>, x: int) {
    InSome(x, f) <==> InSome(x, av) && !Removed(av, rs, x)
  }

  /** What the loop keeps of available memory is what no reserved region takes before it is cut off. */
  lemma {:induction false} KeptExact(av: seq<Region>, rs: seq<Region>, x: int)
    requires Disjoint(av) && ByStart(rs) && NonEmpty(rs)
    ensures FreeMem(av, rs).Some? && Kept(FreeMem(av, rs).value, av, rs, x)
    decreases |av| + |rs|, 1
  {
    NoIndexError(av, rs);
    if av != [] && rs != [] {
      var a, r := av[0], rs[0];
      TailDisjoint(av);
      if a.start >= a.end {
        KeptExact(av[1..], rs, x);
        InTail(av);
        DropFront(av, rs, x);
      } else if r.start >= a.end {
        KeptWhole(av, rs, x);
      } else if r.start > a.start && r.end >= a.end {
        KeptHead(av, rs, x);
      } else {
        KeptRest(av, rs, x);
      }
    }
  }

  lemma {:induction false} BelowStarts(rs: seq<Region>, n: nat)
    requires rs != [] && ByStart(rs) && n <= rs[0].start
    ensures forall i :: 0 <= i < |rs| ==> n <= rs[i].start
  {
  }

  /** The front available region lies below all reserved ones. */
  lemma {:induction false} KeptWhole(av: seq<Region>, rs: seq<Region>, x: int)
    requires Disjoint(av) && ByStart(rs) && NonEmpty(rs) && av != [] && rs != []
    requires av[0].start < av[0].end <= rs[0].start
    ensures FreeMem(av, rs).Some? && Kept(FreeMem(av, rs).value, av, rs, x)
    decreases |av| + |rs|, 0
  {
    TailDisjoint(av);
    KeptExact(av[1..], rs, x);
    BelowStarts(rs, av[0].end);
    DropFront(av, rs, x);
    if x < av[0].end { NotRemoved(av, rs, x); }
    InTail(av);
    InFirst(av[0], FreeMem(av[1..], rs).value, x);
  }

  lemma {:induction false} InFirst(a: Region, f: seq<Region>, x: int)
    ensures InSome(x, [a] + f) <==> In(x, a) || InSome(x, f)
  {
    InTail([a] + f);
    assert ([a] + f)[1..] == f;
  }

  /** The front reserved region takes the end of the front available one, and stays. */
  lemma {:induction false} KeptHead(av: seq<Region>, rs: seq<Region>, x: int)
    requires Disjoint(av) && ByStart(rs) && NonEmpty(rs) && av != [] && rs != []
    requires av[0].start < rs[0].start < av[0].end <= rs[0].end
    ensures FreeMem(av, rs).Some? && Kept(FreeMem(av, rs).value, av, rs, x)
    decreases |av| + |rs|, 0
  {
    var a, r := av[0], rs[0];
    TailDisjoint(av);
    KeptExact(av[1..], rs, x);
    InTail(av);
    InFirst(Region(a.start, r.start), FreeMem(av[1..], rs).value, x);
    HeadRemoved(av, rs, x);
    if x < r.start {
      BelowStarts(rs, r.start);
      NotRemoved(av, rs, x);
      NotRemoved(av[1..], rs, x);
    }
  }

  lemma {:induction false} HeadRemoved(av: seq<Region>, rs: seq<Region>, x: int)
    requires Disjoint(av) && av != [] && rs != [] && av[0].start < rs[0].start < av[0].end <= rs[0].end
    ensures Removed(av, rs, x) == Removed(av[1..], rs, x)
    ensures rs[0].start <= x < av[0].end ==> Removed(av, rs, x)
  {
    var a, r := av[0], rs[0];
    var c := CutOff(av, r);
    assert c == CutOff(av[1..], r);
    CutOffAtLeast(av[1..], r, a.end);
    DropFront(Raised(av, c), rs[1..], x);
    assert Raised(av, c)[1..] == Raised(av[1..], c);
  }

  /** The front reserved region is dropped. */
  lemma {:induction false} KeptRest(av: seq<Region>, rs: seq<Region>, x: int)
    requires Disjoint(av) && ByStart(rs) && NonEmpty(rs) && av != [] && rs != [] && av[0].start < av[0].end
    requires rs[0].start < av[0].end && (rs[0].start > av[0].start ==> rs[0].end < av[0].end)
    ensures FreeMem(av, rs).Some? && Kept(FreeMem(av, rs).value, av, rs, x)
    decreases |av| + |rs|, 0
  {
    var a, r, c := av[0], rs[0], CutOff(av, rs[0]);
    TailByStart(rs);
    CutOffHere(av, r);
    RaisedFront(av, c);
    if r.end <= a.start {
      KeptExact(av, rs[1..], x);
    } else {
      var b := TrimTo(av, c);
      TrimDisjoint(av, c);
      KeptExact(b, rs[1..], x);
      InFirst(Region(a.start, r.start), FreeMem(b, rs[1..]).value, x);
      if x < r.start {
        BelowStarts(rs, r.start);
        NotRemoved(b, rs[1..], x);
      }
    }
    if InSome(x, av) { InSomeFrom(av, x); }
  }

  lemma {:induction false} InSomeFrom(av: seq<Region>, x: int)
    requires Disjoint(av) && av != [] && InSome(x, av)
    ensures av[0].start <= x
  {
  }

  lemma {:induction false} CutOffHere(av: seq<Region>, r: Region)
    requires Disjoint(av) && av != [] && av[0].start < av[0].end && r.start < av[0].end
    requires r.start > av[0].start ==> r.end < av[0].end
    ensures CutOff(av, r) == Min(av[0].end, r.end)
  {
    if !(Meets(r, av[0]) && r.start <= av[0].start) { CutOffBelow(av[1..], r); }
  }

  /**
   For reserved regions in order of their starts, which may overlap each other, the result is exact if and only if what
   is cut off from one of them is taken by another.
   */
  lemma {:induction false} ExactIffCovered(av: seq<Region>, rs: seq<Region>)
    requires Disjoint(av) && ByStart(rs) && NonEmpty(rs)
    ensures FreeMem(av, rs).Some?
    ensures Exact(FreeMem(av, rs).value, av, rs)
       <==> forall x: int :: InSome(x, av) && InSome(x, rs) ==> Removed(av, rs, x)
  {
    NoIndexError(av, rs);
    FreeMemBetween(av, rs);
    forall x: int ensures Kept(FreeMem(av, rs).value, av, rs, x) && (Removed(av, rs, x) ==> InSome(x, rs)) {
      KeptExact(av, rs, x);
      RemovedIsReserved(av, rs, x);
    }
  }

  lemma {:induction false} RemovedIsReserved(av: seq<Region>, rs: seq<Region>, x: int)
    ensures Removed(av, rs, x) ==> InSome(x, rs)
    decreases |rs|
  {
    if rs != [] {
      CutOffAtLeast(av, rs[0], 0);
      RemovedIsReserved(Raised(av, CutOff(av, rs[0])), rs[1..], x);
      InTail(rs);
    }
  }

  /** A region that is cut off does no harm if a later one takes the rest. */
  lemma {:induction false} CoveredSpillHarmless()
    ensures var av, rs := [Region(0, 10), Region(20, 30)], [Region(0, 25), Region(20, 30)];
            && Spilling(av, rs) && FreeMem(av, rs).Some? && Exact(FreeMem(av, rs).value, av, rs)
  {
    var av, rs := [Region(0, 10), Region(20, 30)], [Region(0, 25), Region(20, 30)];
    assert Spills(av, rs, 0, 0);
    var b := Raised(av, 10);
    assert b == [Region(10, 10), Region(20, 30)] && rs[1..] == [Region(20, 30)];
    assert CutOff(av, rs[0]) == 10;
    assert b[1..] == [Region(20, 30)] && CutOff(b, Region(20, 30)) == CutOff(b[1..], Region(20, 30)) == 30;
    forall x: int | InSome(x, av) && InSome(x, rs) ensures Removed(av, rs, x) {
      assert 0 <= x < 10 || 20 <= x < 30;
    }
    ExactIffCovered(av, rs);
  }

  /**
   A reserved region that covers the start of one available region and reaches into the next is forgotten too early.
   */
  lemma {:induction false} CoveringStartSpills()
    ensures FreeMem([Region(0, 10), Region(20, 30)], [Region(0, 25)]) == Some([Region(10, 10), Region(20, 30)])
  {
    var av, rs := [Region(0, 10), Region(20, 30)], [Region(0, 25)];
    assert rs[1..] == [] && TrimTo(av, 10) == [Region(10, 10), Region(20, 30)];
    assert FreeMem(TrimTo(av, 10), rs[1..]) == Some([Region(10, 10), Region(20, 30)]);
  }

  /** Adjoining reserved regions do the same, though the one that reaches on does not cover the start. */
  lemma {:induction false} AdjoiningReservedSpill()
    ensures FreeMem([Region(0, 10), Region(20, 30)], [Region(0, 5), Region(5, 25)])
            == Some([Region(10, 10), Region(20, 30)])
  {
    var av, rs := [Region(0, 10), Region(20, 30)], [Region(0, 5), Region(5, 25)];
    var b := TrimTo(av, 5);
    assert rs[1..] == [Region(5, 25)];
    assert rs[1..][1..] == [] && TrimTo(b, 10) == [Region(10, 10), Region(20, 30)];
    assert FreeMem(TrimTo(b, 10), rs[1..][1..]) == Some([Region(10, 10), Region(20, 30)]);
    assert FreeMem(av, rs) == FreeMem(b, rs[1..]);
  }

  // ----- free regions are not cut up needlessly -----

  /** The addresses from `x` to `y` are available in one region, and none of them is reserved. */
  ghost predicate FreeFromTo(a: Region, rs: seq<Region>, x: int, y: int) {
    x <= y && In(x, a) && In(y, a) && forall z: int :: x <= z <= y ==> !InSome(z, rs)
  }

  ghost predicate InOne(f: seq<Region>, x: int, y: int) {
    exists i :: 0 <= i < |f| && In(x, f[i]) && In(y, f[i])
  }

  lemma {:induction false} InOneOf(r: Region, f: seq<Region>, x: int, y: int)
    requires InOne(f, x, y) || (In(x, r) && In(y, r))
    ensures InOne([r] + f, x, y)
  {
    if InOne(f, x, y) {
      var i :| 0 <= i < |f| && In(x, f[i]) && In(y, f[i]);
      assert ([r] + f)[i + 1] == f[i];
    } else {
      assert ([r] + f)[0] == r;
    }
  }

  lemma {:induction false} FreeInTail(a: Region, rs: seq<Region>, x: int, y: int)
    requires rs != [] && rs[0].start < rs[0].end && FreeFromTo(a, rs, x, y)
    ensures FreeFromTo(a, rs[1..], x, y) && (rs[0].end <= x || y < rs[0].start)
  {
    InTail(rs);
    if x < rs[0].end && rs[0].start <= y {
      var z := if rs[0].start <= x then x else rs[0].start;
      assert In(z, rs[0]);
    }
  }

  /** Available addresses with nothing reserved between them end up in one free region. */
  lemma {:induction false} StaysWhole(av: seq<Region>, rs: seq<Region>, j: nat, x: int, y: int)
    requires Disjoint(av) && NonEmpty(rs) && j < |av| && FreeFromTo(av[j], rs, x, y)
    ensures FreeMem(av, rs).Some? && InOne(FreeMem(av, rs).value, x, y)
    decreases |av| + |rs|, 2
  {
    NoIndexError(av, rs);
    if rs != [] {
      TailDisjoint(av);
      if av[0].start >= av[0].end {
        StaysWhole(av[1..], rs, j - 1, x, y);
      } else {
        RoundWhole(av, rs, j, x, y);
      }
    } else {
      assert In(x, av[j]) && In(y, av[j]);
    }
  }

  lemma {:induction false} RoundWhole(av: seq<Region>, rs: seq<Region>, j: nat, x: int, y: int)
    requires Disjoint(av) && NonEmpty(rs) && rs != [] && j < |av| && FreeFromTo(av[j], rs, x, y)
    requires av[0].start < av[0].end
    ensures FreeMem(av, rs).Some? && InOne(FreeMem(av, rs).value, x, y)
    decreases |av| + |rs|, 1
  {
    var a, r := av[0], rs[0];
    TailDisjoint(av);
    FreeInTail(av[j], rs, x, y);
    if r.end <= a.start {
      StaysWhole(av, rs[1..], j, x, y);
    } else if r.start >= a.end {
      if j > 0 { StaysWhole(av[1..], rs, j - 1, x, y); }
      NoIndexError(av[1..], rs);
      InOneOf(a, FreeMem(av[1..], rs).value, x, y);
    } else if r.start <= a.start {
      TrimmedWhole(av, rs, j, x, y);
    } else if a.end > r.end {
      CutWhole(av, rs, j, x, y);
    } else {
      var head := Region(a.start, r.start);
      if j > 0 { StaysWhole(av[1..], rs, j - 1, x, y); }
      NoIndexError(av[1..], rs);
      InOneOf(head, FreeMem(av[1..], rs).value, x, y);
    }
  }

  lemma {:induction false} TrimmedWhole(av: seq<Region>, rs: seq<Region>, j: nat, x: int, y: int)
    requires Disjoint(av) && NonEmpty(rs) && rs != [] && j < |av| && FreeFromTo(av[j], rs, x, y)
    requires Meets(rs[0], av[0]) && rs[0].start <= av[0].start
    requires rs[0].end <= x || y < rs[0].start
    ensures FreeMem(av, rs).Some? && InOne(FreeMem(av, rs).value, x, y)
    decreases |av| + |rs|, 0
  {
    var b := TrimTo(av, Min(av[0].end, rs[0].end));
    TrimStaysDisjoint(av, Min(av[0].end, rs[0].end));
    FreeInTail(av[j], rs, x, y);
    assert j > 0 ==> b[j] == av[j] && av[0].end <= av[j].start;
    StaysWhole(b, rs[1..], j, x, y);
  }

  lemma {:induction false} CutWhole(av: seq<Region>, rs: seq<Region>, j: nat, x: int, y: int)
    requires Disjoint(av) && NonEmpty(rs) && rs != [] && j < |av| && FreeFromTo(av[j], rs, x, y)
    requires av[0].start < rs[0].start && rs[0].end < av[0].end
    requires rs[0].end <= x || y < rs[0].start
    ensures FreeMem(av, rs).Some? && InOne(FreeMem(av, rs).value, x, y)
    decreases |av| + |rs|, 0
  {
    var head, b := Region(av[0].start, rs[0].start), TrimTo(av, rs[0].end);
    TrimStaysDisjoint(av, rs[0].end);
    FreeInTail(av[j], rs, x, y);
    NoIndexError(b, rs[1..]);
    if j > 0 || rs[0].end <= x {
      assert j > 0 ==> b[j] == av[j] && av[0].end <= av[j].start;
      StaysWhole(b, rs[1..], j, x, y);
    }
    InOneOf(head, FreeMem(b, rs[1..]).value, x, y);
  }

  lemma {:induction false} FreeMemWhole(av: seq<Region>, rs: seq<Region>, j: nat, x: int, y: int) returns (i: nat)
    requires Disjoint(av) && NonEmpty(rs) && j < |av| && FreeFromTo(av[j], rs, x, y)
    ensures FreeMem(av, rs).Some?
    ensures i < |FreeMem(av, rs).value| && In(x, FreeMem(av, rs).value[i]) && In(y, FreeMem(av, rs).value[i])
  {
    StaysWhole(av, rs, j, x, y);
    i :| 0 <= i < |FreeMem(av, rs).value| && In(x, FreeMem(av, rs).value[i]) && In(y, FreeMem(av, rs).value[i]);
  }

  // ----- when the loop reads an empty queue -----

  /**
   Region `n` trims the start of available region `i`, if it is still there by then: it covers the start, or it adjoins
   the region before it, which has trimmed or cut there and so was not used up for trimming the available region before.
   */
  predicate Trims(av: seq<Region>, rs: seq<Region>, n: nat, i: nat)
    requires n < |rs| && i < |av|
    decreases i
  {
    && Meets(rs[n], av[i])
    && (rs[n].start <= av[i].start
        || (n > 0 && rs[n - 1].end == rs[n].start && (i == 0 || !Trims(av, rs, n - 1, i - 1))))
  }

  /** Region `n` is used up for trimming none of the first `j` available regions. */
  ghost predicate KeptUntil(av: seq<Region>, rs: seq<Region>, n: nat, j: nat)
    requires n < |rs| && j <= |av|
  {
    forall i: nat :: i < j ==> !Trims(av, rs, n, i)
  }

  /** Disjoint reserved regions of which those from `m` on are empty, and the others are not. */
  predicate EmptyFrom(rs: seq<Region>, m: nat) {
    m <= |rs| && Disjoint(rs) && NonEmpty(rs[..m]) && AllEmpty(rs[m..])
  }

  predicate AllEmpty(es: seq<Region>) {
    forall k :: 0 <= k < |es| ==> Empty(es[k])
  }

  /** How many of the regions, from the front on, start below `end`. */
  function Below(es: seq<Region>, end: nat): (n: nat)
    ensures n <= |es|
  {
    if es == [] || es[0].start >= end then 0 else 1 + Below(es[1..], end)
  }

  /**
   A run of empty reserved regions. While an available region lasts every other one is skipped unseen, and so is the
   one with which it comes to its end: it takes an odd number of them. The loop reads an empty queue if just so many are
   left.
   */
  predicate RunReads(av: seq<Region>, es: seq<Region>)
    decreases |av|
  {
    av != [] && es != [] &&
    var taken := Taken(Below(es, av[0].end));
    |es| == taken || (|es| > taken && RunReads(av[1..], es[taken..]))
  }

  /**
   Available region `j` is the first to go on beyond the last non-empty reserved region, which is not used up before.
   */
  ghost predicate LeftOver(av: seq<Region>, rs: seq<Region>, m: nat, j: nat)
    requires 0 < m <= |rs|
  {
    && j < |av| && av[j].end > rs[m - 1].end && (j == 0 || av[j - 1].end <= rs[m - 1].end)
    && KeptUntil(av, rs, m - 1, j)
  }

  /** The last non-empty reserved region is used up for trimming available region `i`, of which nothing is left. */
  ghost predicate TrimmedAway(av: seq<Region>, rs: seq<Region>, m: nat, i: nat)
    requires 0 < m <= |rs|
  {
    i < |av| && Trims(av, rs, m - 1, i) && av[i].end <= rs[m - 1].end && KeptUntil(av, rs, m - 1, i)
  }

  /**
   The run begins with the first available region left over, or behind the one that is trimmed away, which takes the
   first empty region with it.
   */
  ghost predicate RunFrom(av: seq<Region>, rs: seq<Region>, m: nat, j: nat)
    requires 0 < m < |rs|
  {
    || (LeftOver(av, rs, m, j) && RunReads(av[j..], rs[m..]))
    || (TrimmedAway(av, rs, m, j) && RunReads(av[j + 1..], rs[m + 1..]))
  }

  /** Such a run leads the loop to an empty queue. */
  ghost predicate ReadsEmpty(av: seq<Region>, rs: seq<Region>, m: nat)
    requires m < |rs|
  {
    if m == 0 then FrontReads(av, rs)
    else exists j: nat :: RunFrom(av, rs, m, j)
  }

  predicate FrontReads(av: seq<Region>, es: seq<Region>)
    requires es != []
  {
    if av != [] && av[0].start >= av[0].end then RunReads(av[1..], es[1..]) else RunReads(av, es)
  }

  /** Only where the available regions end matters. */
  lemma {:induction false} RunReadsTrimmed(av: seq<Region>, start: nat, es: seq<Region>)
    requires av != []
    ensures RunReads(TrimTo(av, start), es) == RunReads(av, es)
  {
    assert TrimTo(av, start)[1..] == av[1..];
  }

  lemma {:induction false} BelowPair(es: seq<Region>, end: nat)
    requires |es| >= 2 && Disjoint(es) && es[1].start < end
    ensures Below(es, end) == 2 + Below(es[2..], end)
  {
    assert es[0].start <= es[0].end <= es[1].start;
    assert es[1..][0] == es[1] && es[1..][1..] == es[2..];
    assert Below(es[1..], end) == 1 + Below(es[1..][1..], end);
  }

  function Taken(n: nat): nat {
    if n % 2 == 1 then n else n + 1
  }

  /** Two empty regions of a run below the end of the available one make no difference. */
  lemma {:induction false} RunReadsPair(av: seq<Region>, es: seq<Region>)
    requires av != [] && |es| >= 2 && Disjoint(es) && es[1].start < av[0].end
    ensures RunReads(av, es) == RunReads(av, es[2..])
  {
    var n, m := Below(es, av[0].end), Below(es[2..], av[0].end);
    BelowPair(es, av[0].end);
    assert Taken(n) == Taken(m) + 2;
    if |es| > Taken(n) { assert es[Taken(n)..] == es[2..][Taken(m)..]; }
  }

  lemma {:induction false} RunReadsExact(av: seq<Region>, es: seq<Region>)
    requires Disjoint(av) && NonEmpty(av) && Disjoint(es) && AllEmpty(es)
    ensures FreeMem(av, es).None? <==> RunReads(av, es)
    decreases |av| + |es|, 1
  {
    if av != [] && |es| == 1 {
      assert SkipEmpty(es) == [];
      assert Below(es, av[0].end) <= 1;
    } else if av != [] && es != [] {
      if es[1].start >= av[0].end { NextBeyond(av, es); } else { NextBelow(av, es); }
    }
  }

  /** The second region of the run lies beyond the front available one, which is taken whole. */
  lemma {:induction false} NextBeyond(av: seq<Region>, es: seq<Region>)
    requires Disjoint(av) && NonEmpty(av) && Disjoint(es) && AllEmpty(es) && av != [] && |es| > 1
    requires es[1].start >= av[0].end
    ensures FreeMem(av, es).None? <==> RunReads(av, es)
    decreases |av| + |es|, 0
  {
    TailDisjoint(av);
    TailDisjoint(es);
    RunReadsExact(av[1..], es[1..]);
    assert SkipEmpty(es) == es[1..] && es[1..][0] == es[1];
    assert Below(es[1..], av[0].end) == 0;
    assert Taken(Below(es, av[0].end)) == 1;
  }

  /** It lies below the end, and is dropped with the one before it. */
  lemma {:induction false} NextBelow(av: seq<Region>, es: seq<Region>)
    requires Disjoint(av) && NonEmpty(av) && Disjoint(es) && AllEmpty(es) && av != [] && |es| > 1
    requires es[1].start < av[0].end
    ensures FreeMem(av, es).None? <==> RunReads(av, es)
    decreases |av| + |es|, 0
  {
    var a, r := av[0], es[1];
    assert SkipEmpty(es) == es[1..] && es[1..][0] == r && es[1..][1..] == es[2..];
    RunReadsPair(av, es);
    if r.end <= a.start {
      RunReadsExact(av, es[2..]);
    } else {
      TrimStaysDisjoint(av, r.end);
      RunReadsTrimmed(av, r.end, es[2..]);
      RunReadsExact(TrimTo(av, r.end), es[2..]);
    }
  }

  /** Using up the front available region without trimming changes nothing for the others. */
  lemma {:induction false} TrimsTail(av: seq<Region>, rs: seq<Region>, n: nat, i: nat)
    requires n < |rs| && 0 < i < |av| && forall m: nat :: m < |rs| ==> !Trims(av, rs, m, 0)
    ensures Trims(av, rs, n, i) == Trims(av[1..], rs, n, i - 1)
    decreases i
  {
    assert av[1..][i - 1] == av[i];
    if n > 0 && i > 1 { TrimsTail(av, rs, n - 1, i - 1); }
  }

  /** What becomes of the available regions when the front reserved region is dropped. */
  predicate UsesUp(av: seq<Region>, b: seq<Region>, r: Region) {
    && av != [] && av[0].start < av[0].end
    && if r.end <= av[0].start then b == av
       else Meets(r, av[0]) && (r.start <= av[0].start || r.end < av[0].end) && b == TrimTo(av, Min(av[0].end, r.end))
  }

  predicate TailNonEmpty(av: seq<Region>) {
    forall i :: 0 < i < |av| ==> av[i].start < av[i].end
  }

  /** Nor does dropping the front reserved region change anything for the ones behind it. */
  lemma {:induction false} TrimsNext(av: seq<Region>, b: seq<Region>, rs: seq<Region>, i: nat)
    requires Disjoint(av) && TailNonEmpty(av) && Disjoint(rs) && |rs| > 1 && NonEmpty(rs[..2])
    requires i < |av| && UsesUp(av, b, rs[0])
    ensures Trims(av, rs, 1, i) == Trims(b, rs[1..], 0, i)
  {
    assert rs[..2][0] == rs[0] && rs[..2][1] == rs[1] && rs[1..][0] == rs[1];
    if i > 0 {
      assert b[i] == av[i] && av[0].end <= av[i].start;
      assert av[i - 1].start < av[i - 1].end <= av[i].start;
    }
  }

  lemma {:induction false} TrimsRest(av: seq<Region>, b: seq<Region>, rs: seq<Region>, n: nat, i: nat)
    requires Disjoint(av) && TailNonEmpty(av) && Disjoint(rs) && 0 < n < |rs| && NonEmpty(rs[..n + 1])
    requires i < |av| && UsesUp(av, b, rs[0])
    ensures Trims(av, rs, n, i) == Trims(b, rs[1..], n - 1, i)
    decreases i
  {
    var front := rs[..n + 1];
    assert front[0] == rs[0] && front[n] == rs[n] && front[n - 1] == rs[n - 1];
    if n == 1 {
      TrimsNext(av, b, rs, i);
    } else {
      assert rs[1..][n - 1] == rs[n] && rs[1..][n - 2] == rs[n - 1];
      assert rs[0].end <= rs[n - 1].start < rs[n - 1].end <= rs[n].start < rs[n].end;
      if i > 0 {
        assert b[i] == av[i];
        assert forall m :: 0 <= m < n ==> rs[..n][m] == front[m];
        TrimsRest(av, b, rs, n - 1, i - 1);
      }
    }
  }

  lemma {:induction false} ReadsTail(av: seq<Region>, rs: seq<Region>, m: nat)
    requires av != [] && 0 < m < |rs| && av[0].end <= rs[m - 1].end
    requires forall n: nat :: n < |rs| ==> !Trims(av, rs, n, 0)
    ensures ReadsEmpty(av, rs, m) <==> ReadsEmpty(av[1..], rs, m)
  {
    assert !RunFrom(av, rs, m, 0);
    forall j: nat | j < |av| - 1 ensures RunFrom(av, rs, m, j + 1) <==> RunFrom(av[1..], rs, m, j) {
      ShiftedTail(av, rs, m, j + 1);
      assert av[j + 1..] == av[1..][j..] && av[j + 2..] == av[1..][j + 1..];
    }
    if j: nat :| RunFrom(av, rs, m, j) { assert RunFrom(av[1..], rs, m, j - 1); }
    if j: nat :| RunFrom(av[1..], rs, m, j) { assert RunFrom(av, rs, m, j + 1); }
  }

  lemma {:induction false} ShiftedTail(av: seq<Region>, rs: seq<Region>, m: nat, j: nat)
    requires 0 < j < |av| && 0 < m < |rs| && av[0].end <= rs[m - 1].end
    requires forall n: nat :: n < |rs| ==> !Trims(av, rs, n, 0)
    ensures LeftOver(av, rs, m, j) <==> LeftOver(av[1..], rs, m, j - 1)
    ensures TrimmedAway(av, rs, m, j) <==> TrimmedAway(av[1..], rs, m, j - 1)
  {
    var n := m - 1;
    assert av[1..][j - 1] == av[j] && (j > 1 ==> av[1..][j - 2] == av[j - 1]);
    forall i: nat | 0 < i <= j ensures Trims(av, rs, n, i) == Trims(av[1..], rs, n, i - 1) { TrimsTail(av, rs, n, i); }
    assert KeptUntil(av, rs, n, j) ==> KeptUntil(av[1..], rs, n, j - 1) by {
      assert forall i: nat :: i < j - 1 ==> Trims(av, rs, n, i + 1) == Trims(av[1..], rs, n, i);
    }
  }

  lemma {:induction false} ReadsRest(av: seq<Region>, b: seq<Region>, rs: seq<Region>, m: nat)
    requires Disjoint(av) && TailNonEmpty(av) && EmptyFrom(rs, m) && 1 < m < |rs| && UsesUp(av, b, rs[0])
    ensures ReadsEmpty(av, rs, m) <==> ReadsEmpty(b, rs[1..], m - 1)
  {
    var rest, k := rs[1..], m - 1;
    forall j: nat ensures RunFrom(av, rs, m, j) <==> RunFrom(b, rest, k, j) { SameRunFrom(av, b, rs, m, j); }
    if j: nat :| RunFrom(av, rs, m, j) { assert RunFrom(b, rest, k, j); }
    if j: nat :| RunFrom(b, rest, k, j) { assert RunFrom(av, rs, m, j); }
  }

  lemma {:induction false} SameRunFrom(av: seq<Region>, b: seq<Region>, rs: seq<Region>, m: nat, j: nat)
    requires Disjoint(av) && TailNonEmpty(av) && EmptyFrom(rs, m) && 1 < m < |rs| && UsesUp(av, b, rs[0])
    ensures RunFrom(av, rs, m, j) <==> RunFrom(b, rs[1..], m - 1, j)
  {
    assert |b| == |av|;
    if j < |av| {
      SameRest(av, b, rs, m, j);
      SameRun(av, b, rs, m, j);
    }
  }

  lemma {:induction false} SameRun(av: seq<Region>, b: seq<Region>, rs: seq<Region>, m: nat, j: nat)
    requires 0 < m < |rs| && UsesUp(av, b, rs[0]) && j < |av|
    ensures rs[1..][m - 1..] == rs[m..] && rs[1..][m..] == rs[m + 1..]
    ensures |b| == |av| && RunReads(av[j..], rs[m..]) == RunReads(b[j..], rs[m..]) && av[j + 1..] == b[j + 1..]
  {
    if b != av && j == 0 {
      assert av[0..] == av && b[0..] == b;
      RunReadsTrimmed(av, b[0].start, rs[m..]);
    } else {
      assert av[j..] == b[j..];
    }
  }

  lemma {:induction false} SameRest(av: seq<Region>, b: seq<Region>, rs: seq<Region>, m: nat, j: nat)
    requires Disjoint(av) && TailNonEmpty(av) && EmptyFrom(rs, m) && 1 < m < |rs| && UsesUp(av, b, rs[0]) && j < |av|
    ensures LeftOver(av, rs, m, j) <==> LeftOver(b, rs[1..], m - 1, j)
    ensures TrimmedAway(av, rs, m, j) <==> TrimmedAway(b, rs[1..], m - 1, j)
  {
    var n, k, rest := m - 1, m - 2, rs[1..];
    forall i: nat | i <= j ensures Trims(av, rs, n, i) == Trims(b, rest, k, i) { TrimsRest(av, b, rs, n, i); }
    assert b[j].end == av[j].end && (j > 0 ==> b[j - 1].end == av[j - 1].end);
    assert KeptUntil(av, rs, n, j) <==> KeptUntil(b, rest, k, j);
  }

  /** The last region that is not empty is dropped: the front available one is left, or trimmed away. */
  lemma {:induction false} ReadsLast(av: seq<Region>, b: seq<Region>, rs: seq<Region>)
    requires Disjoint(av) && TailNonEmpty(av) && EmptyFrom(rs, 1) && 1 < |rs| && UsesUp(av, b, rs[0])
    ensures ReadsEmpty(av, rs, 1) <==> FrontReads(b, rs[1..])
  {
    if rs[0].end < av[0].end { FrontLeft(av, b, rs); } else { FrontAway(av, b, rs); }
  }

  lemma {:induction false} FrontLeft(av: seq<Region>, b: seq<Region>, rs: seq<Region>)
    requires Disjoint(av) && TailNonEmpty(av) && EmptyFrom(rs, 1) && 1 < |rs| && UsesUp(av, b, rs[0])
    requires rs[0].end < av[0].end
    ensures ReadsEmpty(av, rs, 1) <==> FrontReads(b, rs[1..])
  {
    assert av[0..] == av && LeftOver(av, rs, 1, 0) && !TrimmedAway(av, rs, 1, 0);
    forall j: nat | j > 0 ensures !RunFrom(av, rs, 1, j) {
      if j < |av| { assert av[0].end <= av[j].start < av[j].end && (j > 1 ==> av[0].end <= av[j - 1].start); }
    }
    assert RunFrom(av, rs, 1, 0) <==> RunReads(av, rs[1..]);
    if b != av { RunReadsTrimmed(av, b[0].start, rs[1..]); }
  }

  lemma {:induction false} FrontAway(av: seq<Region>, b: seq<Region>, rs: seq<Region>)
    requires Disjoint(av) && EmptyFrom(rs, 1) && 1 < |rs| && UsesUp(av, b, rs[0]) && rs[0].end >= av[0].end
    ensures ReadsEmpty(av, rs, 1) <==> FrontReads(b, rs[1..])
  {
    assert Trims(av, rs, 0, 0) && TrimmedAway(av, rs, 1, 0) && !LeftOver(av, rs, 1, 0);
    forall j: nat | j > 0 ensures !RunFrom(av, rs, 1, j) {
      assert j <= |av| ==> !KeptUntil(av, rs, 0, j);
    }
    assert b[1..] == av[1..] && rs[1..][1..] == rs[2..];
    assert RunFrom(av, rs, 1, 0) <==> RunReads(av[1..], rs[2..]);
  }

  /** The front available region has been trimmed no further than the next reserved region. */
  predicate TrimmedInTurn(av: seq<Region>, rs: seq<Region>, m: nat) {
    0 < m <= |rs| && av != [] && av[0].start >= av[0].end ==> av[0].end <= rs[0].start
  }

  lemma {:induction false} FailsIff(av: seq<Region>, rs: seq<Region>, m: nat)
    requires Disjoint(av) && TailNonEmpty(av) && EmptyFrom(rs, m) && m < |rs| && TrimmedInTurn(av, rs, m)
    ensures FreeMem(av, rs).None? <==> ReadsEmpty(av, rs, m)
    decreases |av| + |rs|, 1
  {
    if m == 0 {
      FrontFails(av, rs);
    } else if av != [] {
      var a, r := av[0], rs[0];
      if a.start >= a.end || r.start >= a.end || (r.start > a.start && a.end <= r.end) {
        TailFails(av, rs, m);
      } else {
        RestFails(av, if r.end <= a.start then av else TrimTo(av, Min(a.end, r.end)), rs, m);
      }
    }
  }

  lemma {:induction false} TailFails(av: seq<Region>, rs: seq<Region>, m: nat)
    requires Disjoint(av) && TailNonEmpty(av) && EmptyFrom(rs, m) && 0 < m < |rs| && TrimmedInTurn(av, rs, m)
    requires av != []
    requires var a, r := av[0], rs[0]; a.start >= a.end || r.start >= a.end || (r.start > a.start && a.end <= r.end)
    ensures FreeMem(av, rs).None? <==> ReadsEmpty(av, rs, m)
    decreases |av| + |rs|, 0
  {
    assert rs[..m][0] == rs[0];
    TailDisjoint(av);
    BeforeLast(av, rs, m);
    ReadsTail(av, rs, m);
    FailsIff(av[1..], rs, m);
    UsedTail(av, rs);
  }

  lemma {:induction false} UsedTail(av: seq<Region>, rs: seq<Region>)
    requires av != [] && rs != [] && rs[0].start < rs[0].end
    requires var a, r := av[0], rs[0]; a.start >= a.end || r.start >= a.end || (r.start > a.start && a.end <= r.end)
    ensures FreeMem(av, rs).None? <==> FreeMem(av[1..], rs).None?
  {
  }

  lemma {:induction false} RestFails(av: seq<Region>, b: seq<Region>, rs: seq<Region>, m: nat)
    requires Disjoint(av) && TailNonEmpty(av) && EmptyFrom(rs, m) && 0 < m < |rs| && UsesUp(av, b, rs[0])
    ensures FreeMem(av, rs).None? <==> ReadsEmpty(av, rs, m)
    decreases |av| + |rs|, 0
  {
    assert rs[..m][0] == rs[0];
    UsedRest(av, b, rs);
    RestInTurn(av, b, rs, m);
    FailsIff(b, rs[1..], m - 1);
    if m == 1 { ReadsLast(av, b, rs); } else { ReadsRest(av, b, rs, m); }
  }

  lemma {:induction false} UsedRest(av: seq<Region>, b: seq<Region>, rs: seq<Region>)
    requires rs != [] && rs[0].start < rs[0].end && UsesUp(av, b, rs[0])
    ensures |b| == |av| && (FreeMem(av, rs).None? <==> FreeMem(b, rs[1..]).None?)
  {
  }

  lemma {:induction false} FrontFails(av: seq<Region>, es: seq<Region>)
    requires Disjoint(av) && TailNonEmpty(av) && EmptyFrom(es, 0) && es != []
    ensures FreeMem(av, es).None? <==> FrontReads(av, es)
  {
    assert es[0..] == es;
    if av != [] && av[0].start >= av[0].end {
      TailDisjoint(av);
      TailDisjoint(es);
      RunReadsExact(av[1..], es[1..]);
    } else {
      RunReadsExact(av, es);
    }
  }

  lemma {:induction false} BeforeLast(av: seq<Region>, rs: seq<Region>, m: nat)
    requires av != [] && EmptyFrom(rs, m) && 0 < m < |rs| && TrimmedInTurn(av, rs, m)
    requires var a, r := av[0], rs[0]; a.start >= a.end || r.start >= a.end || (r.start > a.start && a.end <= r.end)
    ensures av[0].end <= rs[m - 1].end && forall n: nat :: n < |rs| ==> !Trims(av, rs, n, 0)
  {
    assert rs[..m][0] == rs[0];
    assert rs[0].end <= rs[m - 1].end;
  }

  lemma {:induction false} RestInTurn(av: seq<Region>, b: seq<Region>, rs: seq<Region>, m: nat)
    requires Disjoint(av) && TailNonEmpty(av) && EmptyFrom(rs, m) && 0 < m < |rs| && UsesUp(av, b, rs[0])
    ensures Disjoint(b) && TailNonEmpty(b) && EmptyFrom(rs[1..], m - 1) && TrimmedInTurn(b, rs[1..], m - 1)
  {
    TailDisjoint(rs);
    assert rs[1..][..m - 1] == rs[..m][1..] && rs[1..][m - 1..] == rs[m..];
    if b != av { TrimStaysDisjoint(av, Min(av[0].end, rs[0].end)); }
  }

  /**
   For disjoint available regions, and disjoint reserved ones that are empty from `m` on, the loop reads an empty queue
   if and only if a run of the empty regions leads to it from the available memory that is left when the last non-empty
   reserved region has been dropped.
   */
  lemma {:induction false} IndexErrorIff(av: seq<Region>, rs: seq<Region>, m: nat)
    requires Disjoint(av) && NonEmpty(av) && EmptyFrom(rs, m) && m < |rs|
    ensures FreeMem(av, rs).None? <==> ReadsEmpty(av, rs, m)
  {
    FailsIff(av, rs, m);
  }

  /** With one available region the number of empty regions below its end decides. */
  lemma {:induction false} OddRunFails(a: Region, es: seq<Region>)
    requires a.start < a.end && Disjoint(es) && AllEmpty(es) && forall k :: 0 <= k < |es| ==> es[k].start < a.end
    ensures FreeMem([a], es).None? <==> |es| % 2 == 1
  {
    RunReadsExact([a], es);
    AllBelow(es, a.end);
  }

  lemma {:induction false} AllBelow(es: seq<Region>, end: nat)
    requires forall k :: 0 <= k < |es| ==> es[k].start < end
    ensures Below(es, end) == |es|
  {
    if es != [] { AllBelow(es[1..], end); }
  }

  lemma {:induction false} OnlyNeighbourAdjoins(rs: seq<Region>, k: nat, n: nat)
    requires Disjoint(rs) && k < n < |rs| && rs[n - 1].start < rs[n - 1].end && rs[k].end >= rs[n].start
    ensures k == n - 1 && rs[k].end == rs[n].start
  {
    var m := n - 1;
    assert rs[m].end <= rs[n].start;
  }

  lemma {:induction false} TrimMeansSpill(av: seq<Region>, rs: seq<Region>, n: nat, i: nat)
    requires Disjoint(av) && Disjoint(rs) && 0 < n < |rs| && 0 < i < |av|
    requires Trims(av, rs, n - 1, i - 1) && rs[n - 1].end == rs[n].start && rs[n].start > av[i].start
    ensures Spilling(av, rs)
  {
    if rs[n - 1].start > av[i - 1].start { assert rs[n - 2].end >= rs[n - 1].start; }
    assert Spills(av, rs, n - 1, i - 1);
  }

  /** Without a spill, trimming is what the ends of earlier reserved regions suggest. */
  lemma {:induction false} TrimsWithoutSpill(av: seq<Region>, rs: seq<Region>, n: nat, i: nat)
    requires Disjoint(av) && Disjoint(rs) && n < |rs| && NonEmpty(rs[..n + 1]) && i < |av| && !Spilling(av, rs)
    ensures Trims(av, rs, n, i) <==> Meets(rs[n], av[i]) && Reached(av, rs, n, i)
  {
    assert forall m :: 0 <= m <= n ==> rs[..n + 1][m] == rs[m];
    if Meets(rs[n], av[i]) && rs[n].start > av[i].start && Reached(av, rs, n, i) {
      var k :| 0 <= k < n && rs[k].end >= rs[n].start;
      OnlyNeighbourAdjoins(rs, k, n);
      if i > 0 && Trims(av, rs, n - 1, i - 1) {
        TrimMeansSpill(av, rs, n, i);
        assert false;
      }
    }
  }

  /**
   With a spill they may suggest too much: the second region meets an available one and is reached there, but does not
   trim it.
   */
  lemma {:induction false} ReachedNotTrimmed()
    ensures var av := [Region(0, 10), Region(20, 30), Region(40, 50)];
            var rs := [Region(0, 25), Region(25, 35), Region(60, 60)];
            Meets(rs[1], av[1]) && Reached(av, rs, 1, 1) && !Trims(av, rs, 1, 1) && FreeMem(av, rs).None?
  {
    var av := [Region(0, 10), Region(20, 30), Region(40, 50)];
    var rs := [Region(0, 25), Region(25, 35), Region(60, 60)];
    assert rs[0].end >= rs[1].start;
    assert Trims(av, rs, 0, 0) && !Trims(av, rs, 1, 0) && !Trims(av, rs, 1, 1);
    assert rs[2..] == [rs[2]] && av[2..] == [av[2]] && LeftOver(av, rs, 2, 2);
    assert Below(rs[2..], av[2].end) == 0 && RunReads(av[2..], rs[2..]);
    assert RunFrom(av, rs, 2, 2);
    IndexErrorIff(av, rs, 2);
  }

  /** An empty reserved region in last place makes the loop look at the front of an empty queue, */
  lemma {:induction false} EmptyReservedFails()
    ensures FreeMem([Region(0, 10)], [Region(3, 3)]).None?
  {
  }

  /** but not if nothing is left by then. */
  lemma {:induction false} EmptyReservedPasses()
    ensures FreeMem([Region(0, 10)], [Region(0, 10), Region(15, 15)]) == Some([])
  {
    var av, rs := [Region(0, 10)], [Region(0, 10), Region(15, 15)];
    assert TrimTo(av, 10) == [Region(10, 10)] && rs[1..] == [Region(15, 15)];
    assert SkipEmpty(rs[1..]) == [] && TrimTo(av, 10)[1..] == [];
    assert FreeMem(TrimTo(av, 10), rs[1..]) == Some([]);
  }

  // ----- the imperative form -----

  /** `init_freemem` on its two queues. */
  method InitFreemem(available: seq<Region>, toReserve: seq<Region>) returns (freemem: Option<seq<Region>>)
    ensures freemem == FreeMem(available, toReserve)
  {
    var av, rs, free := available, toReserve, [];
    while av != [] && rs != []
      invariant Joined(free, FreeMem(av, rs)) == Joined([], FreeMem(available, toReserve))
      decreases |av| + |rs|
    {
      ghost var before := free;
      if rs[0].start == rs[0].end { rs := rs[1..]; }
      if av[0].start >= av[0].end {
        av := av[1..];
      } else if rs == [] {
        return None;
      } else if rs[0].end <= av[0].start {
        rs := rs[1..];
      } else if rs[0].start >= av[0].end {
        JoinedPrepend(free, av[0], FreeMem(av[1..], rs));
        free := free + [av[0]];
        av := av[1..];
      } else if rs[0].start <= av[0].start {
        av := [Region(Min(av[0].end, rs[0].end), av[0].end)] + av[1..];
        rs := rs[1..];
      } else {
        free := free + [Region(av[0].start, rs[0].start)];
        if av[0].end > rs[0].end {
          JoinedPrepend(before, Region(av[0].start, rs[0].start), FreeMem(TrimTo(av, rs[0].end), rs[1..]));
          av := [Region(rs[0].end, av[0].end)] + av[1..];
          rs := rs[1..];
        } else {
          JoinedPrepend(before, Region(av[0].start, rs[0].start), FreeMem(av[1..], rs));
          av := av[1..];
        }
      }
    }
    assert FreeMem(available, toReserve).Some? ==>
           [] + FreeMem(available, toReserve).value == FreeMem(available, toReserve).value;
    return Some(free + av);
  }

  ghost function Joined(free: seq<Region>, rest: Option<seq<Region>>): Option<seq<Region>> {
    match rest
    case None => None
    case Some(f) => Some(free + f)
  }

  lemma {:induction false} JoinedPrepend(free: seq<Region>, r: Region, rest: Option<seq<Region>>)
    ensures Joined(free, Prepend(r, rest)) == Joined(free + [r], rest)
  {
    if rest.Some? { assert free + ([r] + rest.value) == (free + [r]) + rest.value; }
  }
}
