/**
 The loader's walk over an address space built by `PageCollection.get_spec`, and the imperative
 forms of both.
 */
module AddressSpace {
  import opened Wrappers
  import opened Arithmetic
  import opened Physical
  import opened PageTables

  /** One call of the kernel's page mapping operation. */
  datatype Mapping = Mapping(vaddr: nat, frame: nat)

  function Slots(ls: Levels, l: nat): nat
    requires l < |ls|
  {
    Cov(ls, l) / Cov(ls, l + 1)
  }

  /** The mappings made for the first `n` slots of a table whose range the loader takes to start at `base`. */
  function Walk(ls: Levels, ts: Tables, t: Table, base: nat, n: nat): seq<Mapping>
    requires t.level < |ls| && t in ts
    decreases |ls| - t.level, n
  {
    if n == 0 then []
    else Walk(ls, ts, t, base, n - 1) + WalkSlot(ls, ts, t, base + (n - 1) * Cov(ls, t.level + 1), n - 1)
  }

  /** A slot holding a frame is mapped; one holding a table is walked in turn. */
  function WalkSlot(ls: Levels, ts: Tables, t: Table, addr: nat, i: nat): seq<Mapping>
    requires t.level < |ls| && t in ts
    decreases |ls| - t.level, i
  {
    if i !in ts[t] then []
    else
      match ts[t][i]
      case PageCap(f) => if f.Some? then [Mapping(addr, f.value)] else []
      case TableCap(_) =>
        match Referent(ts, t, i)
        case None => []
        case Some(u) => if u.level < |ls| then Walk(ls, ts, u, addr, Slots(ls, u.level)) else []
  }

  /**
   `init_level_0` over the first `n` slots of the outermost of four levels, which takes every cap for one to a table and
   does not look at whether the kernel accepted the table.
   */
  function WalkTop(ls: Levels, ts: Tables, n: nat): seq<Mapping>
    requires ls != [] && ROOT in ts
  {
    if n == 0 then []
    else WalkTop(ls, ts, n - 1) + WalkTopSlot(ls, ts, (n - 1) * Cov(ls, 1), n - 1)
  }

  /** A frame object has no slots, so nothing is mapped below it. */
  function WalkTopSlot(ls: Levels, ts: Tables, addr: nat, i: nat): seq<Mapping>
    requires ls != [] && ROOT in ts
  {
    if i in ts[ROOT] && ts[ROOT][i].TableCap? then WalkSlot(ls, ts, ROOT, addr, i) else []
  }

  /** `init_vspace` for one top-level object: `None` where it stops with a fatal error. */
  function Load(ls: Levels, ts: Tables): Option<seq<Mapping>>
    requires ls != [] && ROOT in ts
  {
    if !(2 <= |ls| <= 4) then None
    else if |ls| == 4 then Some(WalkTop(ls, ts, Slots(ls, 0)))
    else Some(Walk(ls, ts, ROOT, 0, Slots(ls, 0)))
  }

  // ----- what the walk should find -----

  /** Page `p` lies under slot `i` of table `t`. */
  predicate Under(ls: Levels, p: Page, t: Table, i: nat)
    requires GoodLevels(ls)
  {
    UsesTable(ls, p, t) && ChildIndex(ls, t.level, p.vaddr) == i
  }

  predicate IsMapping(p: Page, m: Mapping) {
    p.frame == Some(m.frame) && p.vaddr == m.vaddr
  }

  predicate Ascending(ms: seq<Mapping>) {
    forall i, j :: 0 <= i < j < |ms| ==> ms[i].vaddr < ms[j].vaddr
  }

  predicate Within(ms: seq<Mapping>, lo: nat, hi: nat) {
    forall i :: 0 <= i < |ms| ==> lo <= ms[i].vaddr < hi
  }

  ghost predicate FromSlot(ls: Levels, ps: seq<Page>, t: Table, i: nat, m: Mapping)
    requires GoodLevels(ls)
  {
    exists k :: 0 <= k < |ps| && Under(ls, ps[k], t, i) && IsMapping(ps[k], m)
  }

  ghost predicate FromSlots(ls: Levels, ps: seq<Page>, t: Table, n: nat, m: Mapping)
    requires GoodLevels(ls)
  {
    exists i: nat :: i < n && FromSlot(ls, ps, t, i, m)
  }

  /** The address the loader computes for a slot. */
  function SlotBase(ls: Levels, t: Table, i: nat): nat
    requires t.level < |ls|
  {
    t.base + i * Cov(ls, t.level + 1)
  }

  /** Every address under a slot lies in the slot's range. */
  lemma {:induction false} UnderSlot(ls: Levels, p: Page, t: Table, i: nat)
    requires GoodLevels(ls) && GoodPage(ls, p) && Under(ls, p, t, i)
    ensures SlotBase(ls, t, i) == RoundDown(p.vaddr, Cov(ls, t.level + 1))
    ensures SlotBase(ls, t, i) <= p.vaddr < SlotBase(ls, t, i + 1)
    ensures i < Slots(ls, t.level)
  {
    var l := t.level;
    var c, d := Cov(ls, l + 1), Cov(ls, l);
    SlotAddress(ls, l, p.vaddr);
    RoundDownBounds(p.vaddr, c);
    assert Nested(ls, l);
    MulDiff(i + 1, i, c);
    IndexBound(p.vaddr, d, c);
  }

  lemma {:induction false} IndexBound(v: nat, d: nat, c: nat)
    requires c > 0 && d > 0 && d % c == 0
    ensures v % d / c < d / c
  {
    var r, q := v % d, d / c;
    assert r / c * c <= r < q * c;
    MulLess(r / c, q, c);
  }

  lemma {:induction false} MulLess(a: int, b: int, c: int)
    requires c > 0 && a * c < b * c
    ensures a < b
  {
    MulDiff(a, b, c);
    if a > b { MulAtLeast(a - b, c); }
  }

  /** A slot that holds a frame cap is the slot of one page only, which starts where the slot does. */
  lemma {:induction false} FrameSlot(ls: Levels, ts: Tables, ps: seq<Page>, t: Table, i: nat) returns (k: nat)
    requires GoodLevels(ls) && GoodPages(ls, ps) && Holds(ls, ts, ps)
    requires t in ts && i in ts[t] && ts[t][i].PageCap?
    ensures k < |ps| && Under(ls, ps[k], t, i) && ts[t][i].frame == ps[k].frame && ps[k].vaddr == SlotBase(ls, t, i)
    ensures t.level == PageLevel(ls, ps[k])
    ensures forall m :: 0 <= m < |ps| && Under(ls, ps[m], t, i) ==> m == k
  {
    assert SomeClaim(ls, ps, t, i, ts[t][i]);
    k :| 0 <= k < |ps| && Claims(ls, ps[k], t, i, ts[t][i]);
    var p := ps[k];
    assert Under(ls, p, t, i);
    PageFillsSlot(ls, p);
    UnderSlot(ls, p, t, i);
    forall m | 0 <= m < |ps| && Under(ls, ps[m], t, i) ensures m == k {
      if m != k {
        assert Apart(ps[m], p) by { if m < k { assert Apart(ps[m], ps[k]); } else { assert Apart(ps[k], ps[m]); } }
        NoConflict(ls, p, ps[m], t.level);
      }
    }
  }

  /** A slot that holds a table cap has under it the pages that use that table. */
  lemma {:induction false} TableSlot(ls: Levels, ts: Tables, ps: seq<Page>, t: Table, i: nat)
    requires GoodLevels(ls) && GoodPages(ls, ps) && Holds(ls, ts, ps)
    requires t in ts && i in ts[t] && ts[t][i].TableCap?
    ensures var u := ts[t][i].table;
            && Referent(ts, t, i) == Some(u) && u.level == t.level + 1 && u.level < |ls| && u.base == SlotBase(ls, t, i)
            && (forall k :: 0 <= k < |ps| ==> (Under(ls, ps[k], t, i) <==> UsesTable(ls, ps[k], u)))
  {
    var u := ts[t][i].table;
    assert SomeClaim(ls, ps, t, i, ts[t][i]);
    var k :| 0 <= k < |ps| && Claims(ls, ps[k], t, i, ts[t][i]);
    assert Under(ls, ps[k], t, i);
    assert UsesTable(ls, ps[k], u);
    assert SomeTable(ls, ps, u);
    UnderSlot(ls, ps[k], t, i);
    forall m | 0 <= m < |ps| ensures Under(ls, ps[m], t, i) <==> UsesTable(ls, ps[m], u) {
      if UsesTable(ls, ps[m], u) { SharesSlot(ls, ps[k], ps[m], t, i, u); }
      if Under(ls, ps[m], t, i) { UnderTable(ls, ts, ps, t, i, m); }
    }
  }

  lemma {:induction false} UnderTable(ls: Levels, ts: Tables, ps: seq<Page>, t: Table, i: nat, m: nat)
    requires GoodLevels(ls) && Holds(ls, ts, ps) && t in ts && i in ts[t] && ts[t][i].TableCap?
    requires m < |ps| && Under(ls, ps[m], t, i)
    ensures UsesTable(ls, ps[m], ts[t][i].table)
  {
    assert Recorded(ls, ts, ps[m], t.level);
  }

  lemma {:induction false} SharesSlot(ls: Levels, p: Page, q: Page, t: Table, i: nat, u: Table)
    requires GoodLevels(ls) && GoodPage(ls, p) && GoodPage(ls, q) && u.level == t.level + 1
    requires Under(ls, p, t, i) && UsesTable(ls, p, u) && UsesTable(ls, q, u)
    ensures Under(ls, q, t, i)
  {
    SameTableSameSlot(ls, t.level, p.vaddr, q.vaddr);
  }

  // ----- the walk finds the pages -----

  lemma {:induction false} WalkSlotExact(ls: Levels, ts: Tables, ps: seq<Page>, t: Table, i: nat)
    requires GoodLevels(ls) && GoodPages(ls, ps) && Holds(ls, ts, ps) && t in ts && t.level < |ls|
    ensures var ms := WalkSlot(ls, ts, t, SlotBase(ls, t, i), i);
            && (forall m :: m in ms <==> FromSlot(ls, ps, t, i, m))
            && Ascending(ms) && Within(ms, SlotBase(ls, t, i), SlotBase(ls, t, i + 1))
    decreases |ls| - t.level, i
  {
    var addr := SlotBase(ls, t, i);
    var ms := WalkSlot(ls, ts, t, addr, i);
    if i !in ts[t] {
      forall k | 0 <= k < |ps| ensures !Under(ls, ps[k], t, i) {
        assert t.level <= PageLevel(ls, ps[k]) ==> Recorded(ls, ts, ps[k], t.level);
      }
    } else if ts[t][i].PageCap? {
      var k := FrameSlot(ls, ts, ps, t, i);
      UnderSlot(ls, ps[k], t, i);
      forall m ensures m in ms <==> FromSlot(ls, ps, t, i, m) {
        if m in ms { assert IsMapping(ps[k], m); }
      }
    } else {
      TableSlot(ls, ts, ps, t, i);
      var u := ts[t][i].table;
      var n := Slots(ls, u.level);
      WalkExact(ls, ts, ps, u, n);
      forall m ensures FromSlots(ls, ps, u, n, m) <==> FromSlot(ls, ps, t, i, m) {
        WholeTable(ls, ps, t, i, u, m);
      }
      SlotWithin(ls, ps, ms, t, i);
    }
  }

  lemma {:induction false} WholeTable(ls: Levels, ps: seq<Page>, t: Table, i: nat, u: Table, m: Mapping)
    requires GoodLevels(ls) && GoodPages(ls, ps) && u.level < |ls|
    requires forall k :: 0 <= k < |ps| ==> (Under(ls, ps[k], t, i) <==> UsesTable(ls, ps[k], u))
    ensures FromSlots(ls, ps, u, Slots(ls, u.level), m) <==> FromSlot(ls, ps, t, i, m)
  {
    if FromSlots(ls, ps, u, Slots(ls, u.level), m) {
      var j: nat :| j < Slots(ls, u.level) && FromSlot(ls, ps, u, j, m);
      var k :| 0 <= k < |ps| && Under(ls, ps[k], u, j) && IsMapping(ps[k], m);
      assert Under(ls, ps[k], t, i);
    }
    if FromSlot(ls, ps, t, i, m) {
      var k :| 0 <= k < |ps| && Under(ls, ps[k], t, i) && IsMapping(ps[k], m);
      var j := ChildIndex(ls, u.level, ps[k].vaddr);
      assert Under(ls, ps[k], u, j);
      UnderSlot(ls, ps[k], u, j);
      assert FromSlot(ls, ps, u, j, m);
    }
  }

  lemma {:induction false} SlotWithin(ls: Levels, ps: seq<Page>, ms: seq<Mapping>, t: Table, i: nat)
    requires GoodLevels(ls) && GoodPages(ls, ps) && t.level < |ls|
    requires forall m :: m in ms ==> FromSlot(ls, ps, t, i, m)
    ensures Within(ms, SlotBase(ls, t, i), SlotBase(ls, t, i + 1))
  {
    forall j | 0 <= j < |ms| ensures SlotBase(ls, t, i) <= ms[j].vaddr < SlotBase(ls, t, i + 1) {
      assert ms[j] in ms;
      assert FromSlot(ls, ps, t, i, ms[j]);
      var k :| 0 <= k < |ps| && Under(ls, ps[k], t, i) && IsMapping(ps[k], ms[j]);
      UnderSlot(ls, ps[k], t, i);
    }
  }

  lemma {:induction false} Join(a: seq<Mapping>, b: seq<Mapping>, lo: nat, mid: nat, hi: nat)
    requires Ascending(a) && Within(a, lo, mid) && Ascending(b) && Within(b, mid, hi) && lo <= mid <= hi
    ensures Ascending(a + b) && Within(a + b, lo, hi)
  {
  }

  lemma {:induction false} OneMoreSlot(ls: Levels, ps: seq<Page>, t: Table, n: nat, m: Mapping)
    requires GoodLevels(ls)
    ensures FromSlots(ls, ps, t, n + 1, m) <==> FromSlots(ls, ps, t, n, m) || FromSlot(ls, ps, t, n, m)
  {
  }

  lemma {:induction false} SlotBaseStep(ls: Levels, t: Table, n: nat)
    requires t.level < |ls|
    ensures t.base <= SlotBase(ls, t, n) <= SlotBase(ls, t, n + 1)
  {
    MulDiff(n + 1, n, Cov(ls, t.level + 1));
  }

  lemma {:induction false} WalkExact(ls: Levels, ts: Tables, ps: seq<Page>, t: Table, n: nat)
    requires GoodLevels(ls) && GoodPages(ls, ps) && Holds(ls, ts, ps) && t in ts && t.level < |ls|
    ensures var ms := Walk(ls, ts, t, t.base, n);
            && (forall m :: m in ms <==> FromSlots(ls, ps, t, n, m))
            && Ascending(ms) && Within(ms, t.base, SlotBase(ls, t, n))
    decreases |ls| - t.level, n
  {
    if n > 0 {
      var i := n - 1;
      var before, slot := Walk(ls, ts, t, t.base, i), WalkSlot(ls, ts, t, SlotBase(ls, t, i), i);
      WalkExact(ls, ts, ps, t, i);
      WalkSlotExact(ls, ts, ps, t, i);
      SlotBaseStep(ls, t, i);
      assert Walk(ls, ts, t, t.base, n) == before + slot;
      Join(before, slot, t.base, SlotBase(ls, t, i), SlotBase(ls, t, n));
      forall m ensures m in before + slot <==> FromSlots(ls, ps, t, n, m) {
        OneMoreSlot(ls, ps, t, i, m);
      }
    }
  }

  // ----- the outermost of four levels -----

  /** The pages that sit in a table below the root. */
  predicate BelowRoot(ls: Levels, p: Page)
    requires |ls| > 1
  {
    p.size < Cov(ls, 1)
  }

  ghost predicate FromBelow(ls: Levels, ps: seq<Page>, i: nat, m: Mapping)
    requires GoodLevels(ls) && |ls| > 1
  {
    exists k :: 0 <= k < |ps| && Under(ls, ps[k], ROOT, i) && IsMapping(ps[k], m) && BelowRoot(ls, ps[k])
  }

  ghost predicate FromAllBelow(ls: Levels, ps: seq<Page>, n: nat, m: Mapping)
    requires GoodLevels(ls) && |ls| > 1
  {
    exists i: nat :: i < n && FromBelow(ls, ps, i, m)
  }

  lemma {:induction false} WalkTopSlotExact(ls: Levels, ts: Tables, ps: seq<Page>, i: nat)
    requires GoodLevels(ls) && |ls| > 1 && GoodPages(ls, ps) && Holds(ls, ts, ps)
    ensures ROOT in ts
    ensures var ms := WalkTopSlot(ls, ts, SlotBase(ls, ROOT, i), i);
            && (forall m :: m in ms <==> FromBelow(ls, ps, i, m))
            && Ascending(ms) && Within(ms, SlotBase(ls, ROOT, i), SlotBase(ls, ROOT, i + 1))
  {
    WalkSlotExact(ls, ts, ps, ROOT, i);
    var ms := WalkTopSlot(ls, ts, SlotBase(ls, ROOT, i), i);
    forall m ensures m in ms <==> FromBelow(ls, ps, i, m) { TopSlotMapping(ls, ts, ps, i, m); }
  }

  lemma {:induction false} TopSlotMapping(ls: Levels, ts: Tables, ps: seq<Page>, i: nat, m: Mapping)
    requires GoodLevels(ls) && |ls| > 1 && GoodPages(ls, ps) && Holds(ls, ts, ps) && ROOT in ts
    requires m in WalkSlot(ls, ts, ROOT, SlotBase(ls, ROOT, i), i) <==> FromSlot(ls, ps, ROOT, i, m)
    ensures m in WalkTopSlot(ls, ts, SlotBase(ls, ROOT, i), i) <==> FromBelow(ls, ps, i, m)
  {
    if i !in ts[ROOT] || ts[ROOT][i].PageCap? {
      forall k | 0 <= k < |ps| && Under(ls, ps[k], ROOT, i) && IsMapping(ps[k], m) ensures !BelowRoot(ls, ps[k]) {
        assert FromSlot(ls, ps, ROOT, i, m);
        var j := FrameSlot(ls, ts, ps, ROOT, i);
        LevelFromExact(ls, 0, ps[k].size);
      }
    } else {
      TableSlot(ls, ts, ps, ROOT, i);
      forall k | 0 <= k < |ps| && Under(ls, ps[k], ROOT, i) ensures BelowRoot(ls, ps[k]) {
        LevelFromExact(ls, 0, ps[k].size);
      }
    }
  }

  lemma {:induction false} OneMoreBelow(ls: Levels, ps: seq<Page>, n: nat, m: Mapping)
    requires GoodLevels(ls) && |ls| > 1
    ensures FromAllBelow(ls, ps, n + 1, m) <==> FromAllBelow(ls, ps, n, m) || FromBelow(ls, ps, n, m)
  {
  }

  lemma {:induction false} WalkTopExact(ls: Levels, ts: Tables, ps: seq<Page>, n: nat)
    requires GoodLevels(ls) && |ls| > 1 && GoodPages(ls, ps) && Holds(ls, ts, ps)
    ensures ROOT in ts
    ensures TopExact(ls, ps, n, WalkTop(ls, ts, n))
    decreases n
  {
    if n == 0 {
      WalkTopEmpty(ls, ts, ps);
    } else {
      var i := n - 1;
      WalkTopExact(ls, ts, ps, i);
      WalkTopSlotExact(ls, ts, ps, i);
      WalkTopNext(ls, ts, i);
      AppendSlot(ls, ps, i, WalkTop(ls, ts, i), WalkTopSlot(ls, ts, SlotBase(ls, ROOT, i), i));
    }
  }

  lemma {:induction false} WalkTopEmpty(ls: Levels, ts: Tables, ps: seq<Page>)
    requires GoodLevels(ls) && |ls| > 1 && Holds(ls, ts, ps)
    ensures ROOT in ts && TopExact(ls, ps, 0, WalkTop(ls, ts, 0))
  {
  }

  lemma {:induction false} WalkTopNext(ls: Levels, ts: Tables, i: nat)
    requires |ls| > 1 && ROOT in ts
    ensures WalkTop(ls, ts, i + 1) == WalkTop(ls, ts, i) + WalkTopSlot(ls, ts, SlotBase(ls, ROOT, i), i)
  {
  }

  /** The mappings of the first `n` slots of the root. */
  ghost predicate TopExact(ls: Levels, ps: seq<Page>, n: nat, ms: seq<Mapping>)
    requires GoodLevels(ls) && |ls| > 1
  {
    && (forall m :: m in ms <==> FromAllBelow(ls, ps, n, m))
    && Ascending(ms) && Within(ms, 0, SlotBase(ls, ROOT, n))
  }

  lemma {:induction false} AppendSlot(ls: Levels, ps: seq<Page>, i: nat, before: seq<Mapping>, slot: seq<Mapping>)
    requires GoodLevels(ls) && |ls| > 1 && TopExact(ls, ps, i, before)
    requires forall m :: m in slot <==> FromBelow(ls, ps, i, m)
    requires Ascending(slot) && Within(slot, SlotBase(ls, ROOT, i), SlotBase(ls, ROOT, i + 1))
    ensures TopExact(ls, ps, i + 1, before + slot)
  {
    SlotBaseStep(ls, ROOT, i);
    Join(before, slot, 0, SlotBase(ls, ROOT, i), SlotBase(ls, ROOT, i + 1));
    forall m ensures m in before + slot <==> FromAllBelow(ls, ps, i + 1, m) { OneMoreBelow(ls, ps, i, m); }
  }

  // ----- the round trip -----

  /** The loader reaches the page: with four levels it does not look at frames in the root. */
  predicate Reached(ls: Levels, p: Page)
    requires |ls| > 1
  {
    |ls| == 4 ==> BelowRoot(ls, p)
  }

  /** `m` maps one of the pages that the loader reaches. */
  ghost predicate MapsReached(ls: Levels, ps: seq<Page>, m: Mapping)
    requires |ls| > 1
  {
    exists k :: 0 <= k < |ps| && IsMapping(ps[k], m) && Reached(ls, ps[k])
  }

  /** A page with a frame that is at least as large as the level below the root covers. */
  predicate HasRootFrame(ls: Levels, ps: seq<Page>)
    requires |ls| > 1
  {
    exists k :: 0 <= k < |ps| && ps[k].frame.Some? && !BelowRoot(ls, ps[k])
  }

  /** The mappings are those of all pages with a frame. */
  ghost predicate AllMapped(ps: seq<Page>, ms: seq<Mapping>) {
    forall m :: m in ms <==> exists k :: 0 <= k < |ps| && IsMapping(ps[k], m)
  }

  /**
   The address space round trip. For size-aligned pages that do not overlap, on any chain of nested levels, the tree is
   built; it is loaded without a fatal error if and only if the loader knows the number of levels. It then maps exactly
   the pages with a frame that it reaches, each once, at their addresses. These are all pages with a frame if and only
   if none of them sits in the outermost of four levels.
   */
  lemma {:induction false} AddressSpaceRoundTrip(ls: Levels, ps: seq<Page>)
    requires GoodLevels(ls) && GoodPages(ls, ps)
    ensures Build(ls, ps).Some?
    ensures var r := Load(ls, Build(ls, ps).value);
            && (r.Some? <==> 2 <= |ls| <= 4)
            && (r.Some? ==>
                  && Ascending(r.value)
                  && (forall m :: m in r.value <==> MapsReached(ls, ps, m))
                  && (AllMapped(ps, r.value) <==> !(|ls| == 4 && HasRootFrame(ls, ps))))
  {
    BuildHolds(ls, ps);
    var r := Load(ls, Build(ls, ps).value);
    if r.Some? {
      LoadExact(ls, Build(ls, ps).value, ps);
      AllMappedExact(ls, ps, r.value);
    }
  }

  lemma {:induction false} LoadExact(ls: Levels, ts: Tables, ps: seq<Page>)
    requires GoodLevels(ls) && GoodPages(ls, ps) && Holds(ls, ts, ps) && 2 <= |ls| <= 4
    ensures ROOT in ts && Load(ls, ts).Some?
    ensures Ascending(Load(ls, ts).value) && forall m :: m in Load(ls, ts).value <==> MapsReached(ls, ps, m)
  {
    if |ls| == 4 {
      WalkTopExact(ls, ts, ps, Slots(ls, 0));
      forall m ensures FromAllBelow(ls, ps, Slots(ls, 0), m) <==> MapsReached(ls, ps, m) { AllBelowRoot(ls, ps, m); }
    } else {
      WalkExact(ls, ts, ps, ROOT, Slots(ls, 0));
      forall m ensures FromSlots(ls, ps, ROOT, Slots(ls, 0), m) <==> MapsReached(ls, ps, m) { AllUnderRoot(ls, ps, m); }
    }
  }

  lemma {:induction false} AllUnderRoot(ls: Levels, ps: seq<Page>, m: Mapping)
    requires GoodLevels(ls) && GoodPages(ls, ps) && 2 <= |ls| < 4
    ensures FromSlots(ls, ps, ROOT, Slots(ls, 0), m) <==> MapsReached(ls, ps, m)
  {
    if MapsReached(ls, ps, m) {
      var k :| 0 <= k < |ps| && IsMapping(ps[k], m) && Reached(ls, ps[k]);
      var i := ChildIndex(ls, 0, ps[k].vaddr);
      assert Under(ls, ps[k], ROOT, i);
      UnderSlot(ls, ps[k], ROOT, i);
      assert FromSlot(ls, ps, ROOT, i, m);
    }
    if FromSlots(ls, ps, ROOT, Slots(ls, 0), m) {
      var i: nat :| i < Slots(ls, 0) && FromSlot(ls, ps, ROOT, i, m);
      var k :| 0 <= k < |ps| && Under(ls, ps[k], ROOT, i) && IsMapping(ps[k], m);
      assert Reached(ls, ps[k]);
    }
  }

  lemma {:induction false} AllBelowRoot(ls: Levels, ps: seq<Page>, m: Mapping)
    requires GoodLevels(ls) && GoodPages(ls, ps) && |ls| == 4
    ensures FromAllBelow(ls, ps, Slots(ls, 0), m) <==> MapsReached(ls, ps, m)
  {
    if MapsReached(ls, ps, m) {
      var k :| 0 <= k < |ps| && IsMapping(ps[k], m) && Reached(ls, ps[k]);
      var i := ChildIndex(ls, 0, ps[k].vaddr);
      assert Under(ls, ps[k], ROOT, i);
      UnderSlot(ls, ps[k], ROOT, i);
      assert FromBelow(ls, ps, i, m);
    }
    if FromAllBelow(ls, ps, Slots(ls, 0), m) {
      var i: nat :| i < Slots(ls, 0) && FromBelow(ls, ps, i, m);
      var k :| 0 <= k < |ps| && Under(ls, ps[k], ROOT, i) && IsMapping(ps[k], m) && BelowRoot(ls, ps[k]);
      assert Reached(ls, ps[k]);
    }
  }

  /** A page with a frame that is not reached is not mapped by another page either, for the pages do not overlap. */
  lemma {:induction false} AllMappedExact(ls: Levels, ps: seq<Page>, ms: seq<Mapping>)
    requires GoodLevels(ls) && GoodPages(ls, ps) && |ls| > 1
    requires forall m :: m in ms <==> MapsReached(ls, ps, m)
    ensures AllMapped(ps, ms) <==> !(|ls| == 4 && HasRootFrame(ls, ps))
  {
    if |ls| == 4 && HasRootFrame(ls, ps) {
      var k :| 0 <= k < |ps| && ps[k].frame.Some? && !BelowRoot(ls, ps[k]);
      var m := Mapping(ps[k].vaddr, ps[k].frame.value);
      assert IsMapping(ps[k], m);
      NotMapped(ls, ps, k);
    } else {
      forall m ensures MapsReached(ls, ps, m) <==> exists k :: 0 <= k < |ps| && IsMapping(ps[k], m) {
        if k :| 0 <= k < |ps| && IsMapping(ps[k], m) { assert Reached(ls, ps[k]); }
      }
    }
  }

  lemma {:induction false} NotMapped(ls: Levels, ps: seq<Page>, k: nat)
    requires GoodLevels(ls) && GoodPages(ls, ps) && |ls| > 1
    requires k < |ps| && ps[k].frame.Some? && !Reached(ls, ps[k])
    ensures !MapsReached(ls, ps, Mapping(ps[k].vaddr, ps[k].frame.value))
  {
    var m := Mapping(ps[k].vaddr, ps[k].frame.value);
    forall j | 0 <= j < |ps| ensures j == k || ps[j].vaddr != ps[k].vaddr {
      if j < k { assert Apart(ps[j], ps[k]); } else if k < j { assert Apart(ps[k], ps[j]); }
    }
  }

  /** The coverages of x86-64. */
  lemma {:induction false} FourLevels(ls: Levels, p: Page)
    requires ls == [0x1_0000_0000_0000, 0x80_0000_0000, 0x4000_0000, 0x20_0000]
    requires p == Page(0, 0x80_0000_0000, Some(7)) || p == Page(0x80_0000_0000, PAGE_SIZE, Some(8))
    ensures GoodLevels(ls) && GoodPage(ls, p)
  {
    assert Nested(ls, 0) && Nested(ls, 1) && Nested(ls, 2) && Nested(ls, 3);
    assert SizeFits(ls, p.size, 0) && SizeFits(ls, p.size, 1) && SizeFits(ls, p.size, 2);
    assert SizeFits(ls, p.size, 3) && SizeFits(ls, p.size, 4);
  }

  /**
   A page of 512 GiB in the root of the x86-64 tables and a small page behind it: the address space is built and loaded,
   and only the small page is mapped. No architecture of `util.py` lists a page size for the root, so it takes a page
   that a caller adds with that size.
   */
  lemma {:induction false} RootFrameSkipped(ls: Levels, large: Page, small: Page)
    requires ls == [0x1_0000_0000_0000, 0x80_0000_0000, 0x4000_0000, 0x20_0000]
    requires large == Page(0, 0x80_0000_0000, Some(7)) && small == Page(0x80_0000_0000, PAGE_SIZE, Some(8))
    ensures GoodLevels(ls) && GoodPages(ls, [large, small]) && Build(ls, [large, small]).Some?
    ensures Load(ls, Build(ls, [large, small]).value) == Some([Mapping(0x80_0000_0000, 8)])
  {
    FourLevels(ls, large);
    FourLevels(ls, small);
    SkipsLarge(ls, large, small);
  }

  lemma {:induction false} SkipsLarge(ls: Levels, large: Page, small: Page)
    requires GoodLevels(ls) && |ls| == 4 && GoodPage(ls, large) && GoodPage(ls, small) && Apart(large, small)
    requires !BelowRoot(ls, large) && BelowRoot(ls, small) && small.frame.Some?
    ensures GoodPages(ls, [large, small]) && Build(ls, [large, small]).Some?
    ensures Load(ls, Build(ls, [large, small]).value) == Some([Mapping(small.vaddr, small.frame.value)])
  {
    var ps := [large, small];
    AddressSpaceRoundTrip(ls, ps);
    var ms := Load(ls, Build(ls, ps).value).value;
    var only := Mapping(small.vaddr, small.frame.value);
    assert MapsReached(ls, ps, only) by { assert IsMapping(ps[1], only) && Reached(ls, ps[1]); }
    forall m ensures m in ms <==> m == only {
      if MapsReached(ls, ps, m) {
        var k :| 0 <= k < |ps| && IsMapping(ps[k], m) && Reached(ls, ps[k]);
        assert k == 1;
      }
    }
    OnlyOne(ms, only);
  }

  lemma {:induction false} OnlyOne(ms: seq<Mapping>, only: Mapping)
    requires Ascending(ms) && forall m :: m in ms <==> m == only
    ensures ms == [only]
  {
    assert only in ms;
    forall i | 0 <= i < |ms| ensures ms[i] == only { assert ms[i] in ms; }
    assert |ms| > 1 ==> ms[0].vaddr < ms[1].vaddr;
  }

  // ----- the imperative forms -----

  /** A prefix that cannot be built leaves the whole unbuilt. */
  lemma {:induction false} BuildStuck(ls: Levels, ps: seq<Page>, k: nat)
    requires GoodLevels(ls) && k <= |ps| && Build(ls, ps[..k]).None?
    ensures Build(ls, ps).None?
    decreases |ps| - k
  {
    if k == |ps| {
      assert ps[..k] == ps;
    } else {
      assert ps[..k + 1][..k] == ps[..k];
      BuildStuck(ls, ps, k + 1);
    }
  }

  /** `PageCollection.get_spec`: the loop over the pages. */
  method GetSpec(ls: Levels, ps: seq<Page>) returns (r: Option<Tables>)
    requires GoodLevels(ls)
    ensures r == Build(ls, ps)
    ensures GoodPages(ls, ps) ==> r.Some? && Holds(ls, r.value, ps)
  {
    if GoodPages(ls, ps) { BuildHolds(ls, ps); }
    var ts := EMPTY_TABLES;
    for k := 0 to |ps|
      invariant Build(ls, ps[..k]) == Some(ts)
    {
      assert ps[..k + 1][..k] == ps[..k] && ps[..k + 1][k] == ps[k];
      var next := InsertPage(ls, ts, ps[k]);
      if next.None? {
        BuildStuck(ls, ps, k + 1);
        return None;
      }
      ts := next.value;
    }
    assert ps[..|ps|] == ps;
    return Some(ts);
  }

  /** The loop down the levels for one page. */
  method InsertPage(ls: Levels, tables: Tables, p: Page) returns (r: Option<Tables>)
    requires GoodLevels(ls) && ROOT in tables
    ensures r == Insert(ls, tables, ROOT, p)
  {
    var ts, parent := tables, ROOT;
    while parent.level + 1 < |ls| && p.size < Cov(ls, parent.level + 1)
      invariant parent.level < |ls| && parent in ts
      invariant Insert(ls, ts, parent, p) == Insert(ls, tables, ROOT, p)
      decreases |ls| - parent.level
    {
      var child := Over(ls, parent.level + 1, p.vaddr);
      var index := ChildIndex(ls, parent.level, child.base);
      if child !in ts {
        ts := ts[child := map[]];
        ts := SetSlot(ts, parent, index, TableCap(child));
      }
      var next := Referent(ts, parent, index);
      if next.None? {
        return None;
      }
      parent := next.value;
    }
    return Some(SetSlot(ts, parent, ChildIndex(ls, parent.level, p.vaddr), PageCap(p.frame)));
  }

  /** `init_level_1` to `init_level_3`: a loop over the slots that maps frames and descends into tables. */
  method InitLevel(ls: Levels, ts: Tables, t: Table, base: nat) returns (ms: seq<Mapping>)
    requires t.level < |ls| && t in ts
    ensures ms == Walk(ls, ts, t, base, Slots(ls, t.level))
    decreases |ls| - t.level
  {
    ms := [];
    for i := 0 to Slots(ls, t.level)
      invariant ms == Walk(ls, ts, t, base, i)
    {
      if i in ts[t] {
        var addr := base + i * Cov(ls, t.level + 1);
        match ts[t][i]
        case PageCap(f) =>
          if f.Some? { ms := ms + [Mapping(addr, f.value)]; }
        case TableCap(_) =>
          var u := Referent(ts, t, i);
          if u.Some? && u.value.level < |ls| {
            var inner := InitLevel(ls, ts, u.value, addr);
            ms := ms + inner;
          }
      }
    }
  }

  /** `init_level_0`: the loop over the root of four levels. */
  method InitLevelZero(ls: Levels, ts: Tables) returns (ms: seq<Mapping>)
    requires ls != [] && ROOT in ts
    ensures ms == WalkTop(ls, ts, Slots(ls, 0))
  {
    ms := [];
    for i := 0 to Slots(ls, 0)
      invariant ms == WalkTop(ls, ts, i)
    {
      if i in ts[ROOT] && ts[ROOT][i].TableCap? {
        var u := Referent(ts, ROOT, i);
        if u.Some? && u.value.level < |ls| {
          var inner := InitLevel(ls, ts, u.value, i * Cov(ls, 1));
          ms := ms + inner;
        }
      }
    }
  }

  /** Building and loading, run one after the other. */
  method BuildAndLoad(ls: Levels, ps: seq<Page>) returns (r: Option<seq<Mapping>>)
    requires GoodLevels(ls) && GoodPages(ls, ps)
    ensures r.Some? <==> 2 <= |ls| <= 4
    ensures r.Some? ==> Ascending(r.value) && forall m :: m in r.value <==> MapsReached(ls, ps, m)
  {
    AddressSpaceRoundTrip(ls, ps);
    var built := GetSpec(ls, ps);
    if !(2 <= |ls| <= 4) {
      return None;
    }
    var ms;
    if |ls| == 4 { ms := InitLevelZero(ls, built.value); } else { ms := InitLevel(ls, built.value, ROOT, 0); }
    r := Some(ms);
  }
}
