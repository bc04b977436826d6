/**
 Virtual address spaces: `PageCollection.get_spec` builds a tree of paging structures by dividing
 addresses, and the loader walks the tree rebuilding addresses by shifting and adding.
 */
module PageTables {
  import opened Wrappers
  import opened Arithmetic
  import opened Physical

  // ----- levels -----

  type Size = n: nat | n > 0 witness 1

  /** The coverages of the levels, outermost first; `Cov` of the level below the last is a page. */
  type Levels = seq<Size>

  function Cov(ls: Levels, l: nat): Size
    requires l <= |ls|
  {
    if l < |ls| then ls[l] else PAGE_SIZE
  }

  /** Every coverage is a multiple of the one below it. */
  predicate GoodLevels(ls: Levels) {
    ls != [] && forall l: nat :: l < |ls| ==> Nested(ls, l)
  }

  predicate Nested(ls: Levels, l: nat)
    requires l < |ls|
  {
    Cov(ls, l) % Cov(ls, l + 1) == 0
  }

  function RoundDown(n: nat, alignment: nat): nat
    requires alignment > 0
  {
    n / alignment * alignment
  }

  /** `base_vaddr`; there is only one root. */
  function BaseVaddr(ls: Levels, l: nat, vaddr: nat): nat
    requires GoodLevels(ls) && l < |ls|
  {
    if l == 0 then 0 else RoundDown(vaddr, Cov(ls, l))
  }

  /** `child_index`. */
  function ChildIndex(ls: Levels, l: nat, vaddr: nat): nat
    requires GoodLevels(ls) && l < |ls|
  {
    vaddr % Cov(ls, l) / Cov(ls, l + 1)
  }

  // ----- arithmetic of nested alignments -----

  lemma {:induction false} RoundDownBounds(v: nat, c: nat)
    requires c > 0
    ensures RoundDown(v, c) <= v < RoundDown(v, c) + c && RoundDown(v, c) % c == 0
  {
    DivModUnique(RoundDown(v, c), c, v / c, 0);
  }

  /** A multiple of a multiple is a multiple. */
  lemma {:induction false} MultipleOfMultiple(v: nat, d: nat, c: nat)
    requires c > 0 && d > 0 && v % d == 0 && d % c == 0
    ensures v % c == 0
  {
    var a, b := v / d, d / c;
    assert v == a * d && d == b * c;
    assert v == (a * b) * c by { MulAssoc(a, b, c); }
    DivModUnique(v, c, a * b, 0);
  }

  lemma {:induction false} MulAssoc(a: int, b: int, c: int)
    ensures a * (b * c) == (a * b) * c
  {
  }

  /** The quotient and remainder by a coverage determine the quotient by the next one. */
  lemma {:induction false} SplitIndex(v: nat, d: nat, c: nat)
    requires c > 0 && d > 0 && d % c == 0
    ensures RoundDown(v, d) + v % d / c * c == RoundDown(v, c)
  {
    var q, r, m := v / d, v % d, d / c;
    var s, t := r / c, r % c;
    assert v == q * d + r && d == m * c && r == s * c + t;
    MulAssoc(q, m, c);
    MulDiff(q * m + s, s, c);
    assert v == (q * m + s) * c + t;
    DivModUnique(v, c, q * m + s, t);
  }

  lemma {:induction false} RoundDownNested(v: nat, d: nat, c: nat)
    requires c > 0 && d > 0 && d % c == 0
    ensures RoundDown(RoundDown(v, c), d) == RoundDown(v, d)
    ensures RoundDown(v, c) % d / c == v % d / c
  {
    var q, s := v / d, v % d / c;
    SplitIndex(v, d, c);
    QuotientTimes(v % d, c);
    PartsOf(q, d, s, c);
  }

  lemma {:induction false} QuotientTimes(x: nat, c: nat)
    requires c > 0
    ensures 0 <= x / c * c <= x
  {
  }

  lemma {:induction false} PartsOf(q: nat, d: nat, s: nat, c: nat)
    requires c > 0 && d > 0 && s * c < d
    ensures var w := q * d + s * c; w / d == q && w % d == s * c && w % d / c == s
  {
    DivModUnique(q * d + s * c, d, q, s * c);
    DivModUnique(s * c, c, s, 0);
  }

  // ----- pages -----

  /** A page to be mapped, with the frame its cap names, if it has a cap. */
  datatype Page = Page(vaddr: nat, size: nat, frame: Option<nat>)

  /** The level whose table holds a page of a size: descend while the page is smaller than the next level's coverage. */
  function LevelFrom(ls: Levels, l: nat, size: nat): (r: nat)
    requires l < |ls|
    ensures l <= r < |ls|
    decreases |ls| - l
  {
    if l + 1 < |ls| && size < Cov(ls, l + 1) then LevelFrom(ls, l + 1, size) else l
  }

  function PageLevel(ls: Levels, p: Page): nat
    requires ls != []
  {
    LevelFrom(ls, 0, p.size)
  }

  lemma {:induction false} LevelFromExact(ls: Levels, l: nat, size: nat)
    requires l < |ls|
    ensures var r := LevelFrom(ls, l, size);
            && (forall k: nat :: l <= k < r ==> LevelFrom(ls, k, size) == r)
            && (forall k: nat :: l < k <= r ==> size < Cov(ls, k))
            && (r + 1 == |ls| || size >= Cov(ls, r + 1))
    decreases |ls| - l
  {
    if l + 1 < |ls| && size < Cov(ls, l + 1) { LevelFromExact(ls, l + 1, size); }
  }

  /** A page that fits the levels: aligned to its size, which is a multiple of the coverages it is not smaller than. */
  predicate GoodPage(ls: Levels, p: Page) {
    && p.size >= PAGE_SIZE && p.vaddr % p.size == 0 && p.vaddr + p.size <= Cov(ls, 0)
    && forall l: nat :: l <= |ls| ==> SizeFits(ls, p.size, l)
  }

  predicate SizeFits(ls: Levels, size: nat, l: nat)
    requires l <= |ls|
  {
    Cov(ls, l) <= size ==> size % Cov(ls, l) == 0
  }

  predicate Apart(p: Page, q: Page) {
    p.vaddr + p.size <= q.vaddr || q.vaddr + q.size <= p.vaddr
  }

  predicate GoodPages(ls: Levels, ps: seq<Page>) {
    && (forall k :: 0 <= k < |ps| ==> GoodPage(ls, ps[k]))
    && (forall k, m :: 0 <= k < m < |ps| ==> Apart(ps[k], ps[m]))
  }

  // ----- building the tree -----

  /** A paging object: its level and the address its range starts at. */
  datatype Table = Table(level: nat, base: nat)

  datatype Entry = TableCap(table: Table) | PageCap(frame: Option<nat>)

  /** Every paging object with its slots. */
  type Tables = map<Table, map<nat, Entry>>

  /** The object at a level that an address lies under. */
  function Over(ls: Levels, l: nat, vaddr: nat): Table
    requires GoodLevels(ls) && l < |ls|
  {
    Table(l, BaseVaddr(ls, l, vaddr))
  }

  const ROOT := Table(0, 0)

  function SetSlot(ts: Tables, t: Table, i: nat, e: Entry): Tables
    requires t in ts
  {
    var slots: map<nat, Entry> := ts[t][i := e];
    ts[t := slots]
  }

  /** The object of the next level for a page, made and entered in its parent's slot unless it exists already. */
  function WithTable(ls: Levels, ts: Tables, t: Table, p: Page): (r: Tables)
    requires GoodLevels(ls) && t.level + 1 < |ls| && t in ts
  {
    var u := Over(ls, t.level + 1, p.vaddr);
    if u in ts then ts else SetSlot(ts[u := map[]], t, ChildIndex(ls, t.level, u.base), TableCap(u))
  }

  /** The next-level object a slot leads to, if it leads to one. */
  function Referent(ts: Tables, t: Table, i: nat): (r: Option<Table>)
    requires t in ts
    ensures r.Some? ==> r.value in ts && r.value.level == t.level + 1
  {
    if i in ts[t] && ts[t][i].TableCap? && ts[t][i].table in ts && ts[t][i].table.level == t.level + 1
    then Some(ts[t][i].table) else None
  }

  /** The walk of `get_spec` for one page: `None` if a slot on the way turns out not to hold a table. */
  function Insert(ls: Levels, ts: Tables, t: Table, p: Page): (r: Option<Tables>)
    requires GoodLevels(ls) && t.level < |ls| && t in ts
    ensures r.Some? ==> ts.Keys <= r.value.Keys
    decreases |ls| - t.level
  {
    if t.level + 1 < |ls| && p.size < Cov(ls, t.level + 1) then
      var ts' := WithTable(ls, ts, t, p);
      match Referent(ts', t, ChildIndex(ls, t.level, BaseVaddr(ls, t.level + 1, p.vaddr)))
      case None => None
      case Some(u) => Insert(ls, ts', u, p)
    else
      Some(SetSlot(ts, t, ChildIndex(ls, t.level, p.vaddr), PageCap(p.frame)))
  }

  const EMPTY_TABLES: Tables := map[ROOT := map[]]

  /** All pages, one after the other. */
  function Build(ls: Levels, ps: seq<Page>): (r: Option<Tables>)
    requires GoodLevels(ls)
    ensures r.Some? ==> ROOT in r.value
    decreases |ps|
  {
    if ps == [] then Some(EMPTY_TABLES)
    else
      match Build(ls, ps[..|ps| - 1])
      case None => None
      case Some(ts) => Insert(ls, ts, ROOT, ps[|ps| - 1])
  }

  // ----- what the tree should hold -----

  /** The entry page `p` should have at level `l`. */
  function Claim(ls: Levels, p: Page, l: nat): Entry
    requires GoodLevels(ls) && l <= PageLevel(ls, p)
  {
    if l < PageLevel(ls, p) then TableCap(Over(ls, l + 1, p.vaddr)) else PageCap(p.frame)
  }

  /** Page `p` has its way through slot `i` of table `t`, which should hold `e`. */
  predicate Claims(ls: Levels, p: Page, t: Table, i: nat, e: Entry)
    requires GoodLevels(ls)
  {
    UsesTable(ls, p, t) && i == ChildIndex(ls, t.level, p.vaddr) && e == Claim(ls, p, t.level)
  }

  predicate UsesTable(ls: Levels, p: Page, t: Table)
    requires GoodLevels(ls)
  {
    t.level <= PageLevel(ls, p) && t == Over(ls, t.level, p.vaddr)
  }

  /** The entry a page claims at level `l` is there. */
  predicate Recorded(ls: Levels, ts: Tables, p: Page, l: nat)
    requires GoodLevels(ls) && l <= PageLevel(ls, p)
  {
    var t, i := Over(ls, l, p.vaddr), ChildIndex(ls, l, p.vaddr);
    t in ts && i in ts[t] && ts[t][i] == Claim(ls, p, l)
  }

  ghost predicate SomeTable(ls: Levels, ps: seq<Page>, t: Table)
    requires GoodLevels(ls)
  {
    exists k :: 0 <= k < |ps| && UsesTable(ls, ps[k], t)
  }

  ghost predicate SomeClaim(ls: Levels, ps: seq<Page>, t: Table, i: nat, e: Entry)
    requires GoodLevels(ls)
  {
    exists k :: 0 <= k < |ps| && Claims(ls, ps[k], t, i, e)
  }

  /**
   The tables hold exactly what the pages claim, and of what `p` claims exactly the tables at the
   first `n + 1` levels and the entries at the first `n`.
   */
  ghost predicate HoldsPart(ls: Levels, ts: Tables, ps: seq<Page>, p: Page, n: nat)
    requires GoodLevels(ls)
  {
    && (forall t {:trigger t in ts} :: t in ts <==>
            t == ROOT || SomeTable(ls, ps, t) || (t.level <= n && UsesTable(ls, p, t)))
    && (forall t, i {:trigger ts[t][i]} :: t in ts && i in ts[t]
          ==> SomeClaim(ls, ps, t, i, ts[t][i]) || (t.level < n && Claims(ls, p, t, i, ts[t][i])))
    && (forall k, l: nat {:trigger Recorded(ls, ts, ps[k], l)} :: 0 <= k < |ps| && l <= PageLevel(ls, ps[k]) ==>
            Recorded(ls, ts, ps[k], l))
    && (forall l: nat {:trigger Recorded(ls, ts, p, l)} :: l < n && l <= PageLevel(ls, p) ==> Recorded(ls, ts, p, l))
  }

  /** The tables hold exactly what the pages claim. */
  ghost predicate Holds(ls: Levels, ts: Tables, ps: seq<Page>)
    requires GoodLevels(ls)
  {
    && (forall t {:trigger t in ts} :: t in ts <==> t == ROOT || SomeTable(ls, ps, t))
    && (forall t, i {:trigger ts[t][i]} :: t in ts && i in ts[t] ==> SomeClaim(ls, ps, t, i, ts[t][i]))
    && (forall k, l: nat {:trigger Recorded(ls, ts, ps[k], l)} :: 0 <= k < |ps| && l <= PageLevel(ls, ps[k]) ==>
            Recorded(ls, ts, ps[k], l))
  }

  /** The address a slot of a table stands for. */
  lemma {:induction false} SlotAddress(ls: Levels, l: nat, v: nat)
    requires GoodLevels(ls) && l < |ls| && v < Cov(ls, 0)
    ensures BaseVaddr(ls, l, v) + ChildIndex(ls, l, v) * Cov(ls, l + 1) == RoundDown(v, Cov(ls, l + 1))
    ensures l + 1 < |ls| ==> ChildIndex(ls, l, BaseVaddr(ls, l + 1, v)) == ChildIndex(ls, l, v)
  {
    assert Nested(ls, l);
    SplitIndex(v, Cov(ls, l), Cov(ls, l + 1));
    if l == 0 { DivModUnique(v, Cov(ls, 0), 0, v); }
    RoundDownNested(v, Cov(ls, l), Cov(ls, l + 1));
  }

  /** At its own level a page starts exactly where its slot does, and covers all of it. */
  lemma {:induction false} PageFillsSlot(ls: Levels, p: Page)
    requires GoodLevels(ls) && GoodPage(ls, p)
    ensures var c := Cov(ls, PageLevel(ls, p) + 1);
            c <= p.size && RoundDown(p.vaddr, c) == p.vaddr
  {
    var l := PageLevel(ls, p);
    var c := Cov(ls, l + 1);
    LevelFromExact(ls, 0, p.size);
    assert SizeFits(ls, p.size, l + 1);
    MultipleOfMultiple(p.vaddr, p.size, c);
  }

  /** No slot is claimed both as a page and as anything else: pages that share one would overlap. */
  lemma {:induction false} NoConflict(ls: Levels, p: Page, q: Page, l: nat)
    requires GoodLevels(ls) && GoodPage(ls, p) && GoodPage(ls, q) && Apart(p, q)
    requires l == PageLevel(ls, p) && l <= PageLevel(ls, q)
    ensures BaseVaddr(ls, l, p.vaddr) != BaseVaddr(ls, l, q.vaddr)
            || ChildIndex(ls, l, p.vaddr) != ChildIndex(ls, l, q.vaddr)
  {
    PageFillsSlot(ls, p);
    SlotAddress(ls, l, p.vaddr);
    SlotAddress(ls, l, q.vaddr);
    RoundDownBounds(q.vaddr, Cov(ls, l + 1));
  }

  /** Addresses under one table go through one slot of its parent. */
  lemma {:induction false} SameTableSameSlot(ls: Levels, l: nat, v: nat, w: nat)
    requires GoodLevels(ls) && l + 1 < |ls| && v < Cov(ls, 0) && w < Cov(ls, 0)
    ensures BaseVaddr(ls, l + 1, v) == BaseVaddr(ls, l + 1, w)
            <==> BaseVaddr(ls, l, v) == BaseVaddr(ls, l, w) && ChildIndex(ls, l, v) == ChildIndex(ls, l, w)
  {
    SlotAddress(ls, l, v);
    SlotAddress(ls, l, w);
    assert Nested(ls, l);
    RoundDownNested(v, Cov(ls, l), Cov(ls, l + 1));
    RoundDownNested(w, Cov(ls, l), Cov(ls, l + 1));
  }

  /** A slot at level `l` that `p` needs and that does not lead to its table yet is used by no other page. */
  lemma {:induction false} SlotUnused(ls: Levels, ts: Tables, ps: seq<Page>, p: Page, l: nat, k: nat)
    requires GoodLevels(ls) && GoodPages(ls, ps + [p]) && l <= PageLevel(ls, p) && HoldsPart(ls, ts, ps, p, l)
    requires l < PageLevel(ls, p) ==> Over(ls, l + 1, p.vaddr) !in ts
    requires k < |ps| && l <= PageLevel(ls, ps[k])
    ensures Over(ls, l, ps[k].vaddr) != Over(ls, l, p.vaddr)
            || ChildIndex(ls, l, ps[k].vaddr) != ChildIndex(ls, l, p.vaddr)
  {
    var q := ps[k];
    assert (ps + [p])[k] == q && (ps + [p])[|ps|] == p;
    assert Apart(q, p);
    if l == PageLevel(ls, p) {
      NoConflict(ls, p, q, l);
    } else if l == PageLevel(ls, q) {
      NoConflict(ls, q, p, l);
    } else {
      SameTableSameSlot(ls, l, p.vaddr, q.vaddr);
      var u := Over(ls, l + 1, q.vaddr);
      assert UsesTable(ls, q, u);
      assert SomeTable(ls, ps, u);
    }
  }

  /** A table that exists already is where the slot leads. */
  lemma {:induction false} TableShared(ls: Levels, ts: Tables, ps: seq<Page>, p: Page, l: nat)
    requires GoodLevels(ls) && GoodPages(ls, ps + [p]) && l < PageLevel(ls, p) && HoldsPart(ls, ts, ps, p, l)
    requires Over(ls, l + 1, p.vaddr) in ts
    ensures Recorded(ls, ts, p, l)
  {
    var k := TableUser(ls, ts, ps, p, l);
    assert (ps + [p])[|ps|] == p && (ps + [p])[k] == ps[k];
    assert Recorded(ls, ts, ps[k], l);
    SameRecord(ls, ts, ps[k], p, l);
  }

  lemma {:induction false} TableUser(ls: Levels, ts: Tables, ps: seq<Page>, p: Page, l: nat) returns (k: nat)
    requires GoodLevels(ls) && l < PageLevel(ls, p) && HoldsPart(ls, ts, ps, p, l)
    requires Over(ls, l + 1, p.vaddr) in ts
    ensures k < |ps| && l < PageLevel(ls, ps[k]) && Over(ls, l + 1, ps[k].vaddr) == Over(ls, l + 1, p.vaddr)
  {
    var u := Over(ls, l + 1, p.vaddr);
    assert SomeTable(ls, ps, u);
    k :| 0 <= k < |ps| && UsesTable(ls, ps[k], u);
  }

  /** Pages under one table of the next level claim the same entry. */
  lemma {:induction false} SameRecord(ls: Levels, ts: Tables, p: Page, q: Page, l: nat)
    requires GoodLevels(ls) && GoodPage(ls, p) && GoodPage(ls, q) && l < PageLevel(ls, p) && l < PageLevel(ls, q)
    requires Over(ls, l + 1, p.vaddr) == Over(ls, l + 1, q.vaddr)
    ensures Recorded(ls, ts, p, l) <==> Recorded(ls, ts, q, l)
  {
    SameTableSameSlot(ls, l, p.vaddr, q.vaddr);
  }

  lemma {:induction false} TableSharedHolds(ls: Levels, ts: Tables, ps: seq<Page>, p: Page, l: nat)
    requires GoodLevels(ls) && l < PageLevel(ls, p) && HoldsPart(ls, ts, ps, p, l)
    requires Over(ls, l + 1, p.vaddr) in ts && Recorded(ls, ts, p, l)
    ensures HoldsPart(ls, ts, ps, p, l + 1)
  {
  }

  /** One step down: the next table exists afterwards and the slot leads to it. */
  lemma {:induction false} WithTableHolds(ls: Levels, ts: Tables, ps: seq<Page>, p: Page, l: nat)
    requires GoodLevels(ls) && GoodPages(ls, ps + [p]) && l < PageLevel(ls, p) && HoldsPart(ls, ts, ps, p, l)
    ensures Over(ls, l, p.vaddr) in ts
    ensures HoldsPart(ls, WithTable(ls, ts, Over(ls, l, p.vaddr), p), ps, p, l + 1)
  {
    var u := Over(ls, l + 1, p.vaddr);
    TableAbove(ls, ts, ps, p, l);
    assert (ps + [p])[|ps|] == p;
    if u in ts {
      TableShared(ls, ts, ps, p, l);
      TableSharedHolds(ls, ts, ps, p, l);
    } else {
      SetSlotHolds(ls, ts, ts[u := map[]], ps, p, l);
      WithTableIs(ls, ts, p, l);
    }
  }

  lemma {:induction false} TableAbove(ls: Levels, ts: Tables, ps: seq<Page>, p: Page, l: nat)
    requires GoodLevels(ls) && l <= PageLevel(ls, p) && HoldsPart(ls, ts, ps, p, l)
    ensures Over(ls, l, p.vaddr) in ts
  {
    assert UsesTable(ls, p, Over(ls, l, p.vaddr));
  }

  lemma {:induction false} WithTableIs(ls: Levels, ts: Tables, p: Page, l: nat)
    requires GoodLevels(ls) && GoodPage(ls, p) && l < PageLevel(ls, p) && Over(ls, l, p.vaddr) in ts
    requires Over(ls, l + 1, p.vaddr) !in ts
    ensures WithTable(ls, ts, Over(ls, l, p.vaddr), p)
         == SetSlot(ts[Over(ls, l
             + 1, p.vaddr) := map[]], Over(ls, l, p.vaddr), ChildIndex(ls, l, p.vaddr), Claim(ls, p, l))
  {
    SlotAddress(ls, l, p.vaddr);
  }

  lemma {:induction false} SetSlotHolds(ls: Levels, ts: Tables, ts': Tables, ps: seq<Page>, p: Page, l: nat)
    requires GoodLevels(ls) && GoodPages(ls, ps + [p]) && l <= PageLevel(ls, p) && HoldsPart(ls, ts, ps, p, l)
    requires if l < PageLevel(ls, p)
             then Over(ls, l + 1, p.vaddr) !in ts && ts' == ts[Over(ls, l + 1, p.vaddr) := map[]]
             else ts' == ts
    ensures Over(ls, l, p.vaddr) in ts'
    ensures HoldsPart(ls, SetSlot(ts', Over(ls, l, p.vaddr), ChildIndex(ls, l, p.vaddr), Claim(ls, p, l)), ps, p, l + 1)
  {
    var t, i, e := Over(ls, l, p.vaddr), ChildIndex(ls, l, p.vaddr), Claim(ls, p, l);
    assert UsesTable(ls, p, t);
    var r := SetSlot(ts', t, i, e);
    forall k, m: nat | 0 <= k < |ps| && m <= PageLevel(ls, ps[k]) ensures Recorded(ls, r, ps[k], m) {
      if m == l { SlotUnused(ls, ts, ps, p, l, k); }
      KeepsRecord(ls, ts, ts', ps[k], m, t, i, e);
    }
    forall m: nat | m < l + 1 && m <= PageLevel(ls, p) ensures Recorded(ls, r, p, m) {
      if m < l {
        assert Recorded(ls, ts, p, m);
        KeepsRecord(ls, ts, ts', p, m, t, i, e);
      }
    }
    assert Claims(ls, p, t, i, e);
    forall x, j | x in r && j in r[x]
      ensures SomeClaim(ls, ps, x, j, r[x][j]) || (x.level < l + 1 && Claims(ls, p, x, j, r[x][j]))
    {
      if x != t || j != i { assert x in ts && j in ts[x] && r[x][j] == ts[x][j]; }
    }
  }

  /** Setting another slot leaves an entry in place. */
  lemma {:induction false} KeepsRecord(ls: Levels, ts: Tables, ts': Tables, q: Page, m: nat, t: Table, i: nat, e: Entry)
    requires GoodLevels(ls) && m <= PageLevel(ls, q) && Recorded(ls, ts, q, m) && t in ts'
    requires forall x :: x in ts ==> x in ts' && ts'[x] == ts[x]
    requires Over(ls, m, q.vaddr) != t || ChildIndex(ls, m, q.vaddr) != i
    ensures Recorded(ls, SetSlot(ts', t, i, e), q, m)
  {
  }

  /** Inserting a page that overlaps none enters exactly its claims. */
  lemma {:induction false} InsertHolds(ls: Levels, ts: Tables, ps: seq<Page>, p: Page, l: nat) returns (r: Tables)
    requires GoodLevels(ls) && GoodPages(ls, ps + [p]) && l <= PageLevel(ls, p) && HoldsPart(ls, ts, ps, p, l)
    ensures Over(ls, l, p.vaddr) in ts
    ensures Insert(ls, ts, Over(ls, l, p.vaddr), p) == Some(r) && Holds(ls, r, ps + [p])
    decreases |ls| - l
  {
    TableAbove(ls, ts, ps, p, l);
    if l < PageLevel(ls, p) {
      var ts' := InsertDown(ls, ts, ps, p, l);
      r := InsertHolds(ls, ts', ps, p, l + 1);
      InsertVia(ls, ts, ts', p, l, r);
    } else {
      r := InsertLast(ls, ts, ps, p, l);
    }
  }

  /** One level down. */
  lemma {:induction false} InsertDown(ls: Levels, ts: Tables, ps: seq<Page>, p: Page, l: nat) returns (ts': Tables)
    requires GoodLevels(ls) && GoodPages(ls, ps + [p]) && l < PageLevel(ls, p) && HoldsPart(ls, ts, ps, p, l)
    requires Over(ls, l, p.vaddr) in ts
    ensures HoldsPart(ls, ts', ps, p, l + 1) && Descends(ls, ts, ts', p, l)
  {
    ts' := WithTable(ls, ts, Over(ls, l, p.vaddr), p);
    assert (ps + [p])[|ps|] == p;
    WithTableHolds(ls, ts, ps, p, l);
    TableAbove(ls, ts', ps, p, l + 1);
    StepRecorded(ls, ts', ps, p, l);
    InsertDescends(ls, ts, p, l);
  }

  /** Inserting goes on one level down, in `ts'`. */
  predicate Descends(ls: Levels, ts: Tables, ts': Tables, p: Page, l: nat)
    requires GoodLevels(ls) && l < PageLevel(ls, p)
  {
    && Over(ls, l, p.vaddr) in ts && Over(ls, l + 1, p.vaddr) in ts'
    && Insert(ls, ts, Over(ls, l, p.vaddr), p) == Insert(ls, ts', Over(ls, l + 1, p.vaddr), p)
  }

  lemma {:induction false} InsertVia(ls: Levels, ts: Tables, ts': Tables, p: Page, l: nat, r: Tables)
    requires GoodLevels(ls) && l < PageLevel(ls, p) && Descends(ls, ts, ts', p, l)
    requires Insert(ls, ts', Over(ls, l + 1, p.vaddr), p) == Some(r)
    ensures Insert(ls, ts, Over(ls, l, p.vaddr), p) == Some(r)
  {
  }

  /** At the level of the page itself. */
  lemma {:induction false} InsertLast(ls: Levels, ts: Tables, ps: seq<Page>, p: Page, l: nat) returns (r: Tables)
    requires GoodLevels(ls) && GoodPages(ls, ps + [p]) && l == PageLevel(ls, p) && HoldsPart(ls, ts, ps, p, l)
    requires Over(ls, l, p.vaddr) in ts
    ensures Insert(ls, ts, Over(ls, l, p.vaddr), p) == Some(r) && Holds(ls, r, ps + [p])
  {
    r := SetSlot(ts, Over(ls, l, p.vaddr), ChildIndex(ls, l, p.vaddr), Claim(ls, p, l));
    SetSlotHolds(ls, ts, ts, ps, p, l);
    InsertStops(ls, ts, p, l);
    AllHeld(ls, r, ps, p);
  }

  lemma {:induction false} StepRecorded(ls: Levels, ts: Tables, ps: seq<Page>, p: Page, l: nat)
    requires GoodLevels(ls) && l < PageLevel(ls, p) && HoldsPart(ls, ts, ps, p, l + 1)
    ensures Recorded(ls, ts, p, l)
  {
  }

  lemma {:induction false} InsertDescends(ls: Levels, ts: Tables, p: Page, l: nat)
    requires GoodLevels(ls) && GoodPage(ls, p) && l < PageLevel(ls, p) && Over(ls, l, p.vaddr) in ts
    requires Recorded(ls, WithTable(ls, ts, Over(ls, l, p.vaddr), p), p, l)
    requires Over(ls, l + 1, p.vaddr) in WithTable(ls, ts, Over(ls, l, p.vaddr), p)
    ensures Insert(ls, ts, Over(ls, l, p.vaddr), p)
         == Insert(ls, WithTable(ls, ts, Over(ls, l, p.vaddr), p), Over(ls, l + 1, p.vaddr), p)
  {
    LevelFromExact(ls, 0, p.size);
    SlotAddress(ls, l, p.vaddr);
  }

  lemma {:induction false} InsertStops(ls: Levels, ts: Tables, p: Page, l: nat)
    requires GoodLevels(ls) && l == PageLevel(ls, p) && Over(ls, l, p.vaddr) in ts
    ensures Insert(ls, ts, Over(ls, l, p.vaddr), p)
         == Some(SetSlot(ts, Over(ls, l, p.vaddr), ChildIndex(ls, l, p.vaddr), Claim(ls, p, l)))
  {
    LevelFromExact(ls, 0, p.size);
  }

  lemma {:induction false} AllHeld(ls: Levels, ts: Tables, ps: seq<Page>, p: Page)
    requires GoodLevels(ls) && HoldsPart(ls, ts, ps, p, PageLevel(ls, p) + 1)
    ensures Holds(ls, ts, ps + [p])
  {
    var qs := ps + [p];
    assert qs[|ps|] == p;
    assert forall k :: 0 <= k < |ps| ==> qs[k] == ps[k];
    forall t ensures SomeTable(ls, qs, t) <==> SomeTable(ls, ps, t) || UsesTable(ls, p, t) {
      if SomeTable(ls, ps, t) {
        var k :| 0 <= k < |ps| && UsesTable(ls, ps[k], t);
        assert UsesTable(ls, qs[k], t);
      }
      if UsesTable(ls, p, t) { assert UsesTable(ls, qs[|ps|], t); }
    }
    forall t, i | t in ts && i in ts[t] ensures SomeClaim(ls, qs, t, i, ts[t][i]) {
      if SomeClaim(ls, ps, t, i, ts[t][i]) {
        var k :| 0 <= k < |ps| && Claims(ls, ps[k], t, i, ts[t][i]);
        assert Claims(ls, qs[k], t, i, ts[t][i]);
      } else {
        assert Claims(ls, qs[|ps|], t, i, ts[t][i]);
      }
    }
  }

  /** The tree for pages that do not overlap holds exactly what they claim; no slot is both table and frame. */
  lemma {:induction false} BuildHolds(ls: Levels, ps: seq<Page>)
    requires GoodLevels(ls) && GoodPages(ls, ps)
    ensures Build(ls, ps).Some? && Holds(ls, Build(ls, ps).value, ps)
    decreases |ps|
  {
    if ps != [] {
      var qs, p := ps[..|ps| - 1], ps[|ps| - 1];
      assert qs + [p] == ps;
      BuildHolds(ls, qs);
      var ts := Build(ls, qs).value;
      assert HoldsPart(ls, ts, qs, p, 0);
      var built := InsertHolds(ls, ts, qs, p, 0);
    }
  }
}
