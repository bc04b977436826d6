/**
 `ELF.get_pages` over all segments of a file. The pages are collected in a dictionary by address, and two
 segments may both have a part in one page.
 */
module ElfFile {
  import opened Wrappers
  import opened Arithmetic
  import opened Physical
  import opened Elf

  // ----- PageCollection -----

  /** What is known of a page: its size, and the fills of all segments with a part in it. */
  datatype Entry = Entry(size: nat, fills: seq<Fill>)

  type Collection = map<nat, Entry>

  function FillList(f: Fill): seq<Fill> {
    if f.Data? then [f] else []
  }

  /** `add_page`: the size of a page that is there already is overwritten. */
  function WithPage(c: Collection, p: Page): Collection {
    c[p.vaddr := Entry(p.size, (if p.vaddr in c then c[p.vaddr].fills else []) + FillList(p.fill))]
  }

  function WithPages(c: Collection, ps: seq<Page>): Collection {
    if ps == [] then c else WithPage(WithPages(c, ps[..|ps| - 1]), ps[|ps| - 1])
  }

  /** The pages of all segments in the order in which they are added, `None` where an assertion fails. */
  function FilePages(sizes: seq<nat>, segs: seq<Segment>, frames: seq<Frame>): Option<seq<Page>> {
    if segs == [] then Some([])
    else
      match (FilePages(sizes, segs[..|segs| - 1], frames), GetPages(sizes, segs[|segs| - 1], frames))
      case (Some(ps), Some(qs)) => Some(ps + qs)
      case _ => None
  }

  class PageCollection {
    var pages: Collection

    constructor ()
      ensures pages == map[]
    {
      pages := map[];
    }

    method AddPage(p: Page)
      modifies this
      ensures pages == WithPage(old(pages), p)
    {
      if p.vaddr !in pages { pages := pages[p.vaddr := Entry(PAGE_SIZE, [])]; }
      pages := pages[p.vaddr := pages[p.vaddr].(size := p.size)];
      pages := pages[p.vaddr := pages[p.vaddr].(fills := pages[p.vaddr].fills + FillList(p.fill))];
    }

    /** The pages of one segment, one after the other. */
    method AddPages(ps: seq<Page>)
      modifies this
      ensures pages == WithPages(old(pages), ps)
    {
      for k := 0 to |ps|
        invariant pages == WithPages(old(pages), ps[..k])
      {
        assert ps[..k + 1][..k] == ps[..k];
        AddPage(ps[k]);
      }
      assert ps[..|ps|] == ps;
    }
  }

  lemma {:induction false} FileStuck(sizes: seq<nat>, segs: seq<Segment>, frames: seq<Frame>, k: nat)
    requires k <= |segs| && FilePages(sizes, segs[..k], frames).None?
    ensures FilePages(sizes, segs, frames).None?
    decreases |segs| - k
  {
    if k == |segs| {
      assert segs[..k] == segs;
    } else {
      assert segs[..k + 1][..k] == segs[..k];
      FileStuck(sizes, segs, frames, k + 1);
    }
  }

  lemma {:induction false} WithMorePages(c: Collection, ps: seq<Page>, qs: seq<Page>)
    ensures WithPages(c, ps + qs) == WithPages(WithPages(c, ps), qs)
    decreases |qs|
  {
    if qs == [] {
      assert ps + qs == ps;
    } else {
      var n := |qs| - 1;
      assert (ps + qs)[..|ps + qs| - 1] == ps + qs[..n];
      WithMorePages(c, ps, qs[..n]);
    }
  }

  /** `get_pages`: the loop over the segments. */
  method LoadFile(sizes: seq<nat>, segs: seq<Segment>, frames: seq<Frame>) returns (r: Option<PageCollection>)
    ensures r.Some? <==> FilePages(sizes, segs, frames).Some?
    ensures r.Some? ==> fresh(r.value) && r.value.pages == WithPages(map[], FilePages(sizes, segs, frames).value)
  {
    var c := new PageCollection();
    ghost var added: seq<Page> := [];
    for k := 0 to |segs|
      invariant FilePages(sizes, segs[..k], frames) == Some(added) && c.pages == WithPages(map[], added)
    {
      assert segs[..k + 1][..k] == segs[..k];
      var ps := LoadSegment(sizes, segs[k], frames);
      if ps.None? {
        FileStuck(sizes, segs, frames, k + 1);
        return None;
      }
      c.AddPages(ps.value);
      WithMorePages(map[], added, ps.value);
      added := added + ps.value;
    }
    assert segs[..|segs|] == segs;
    return Some(c);
  }

  // ----- what the collection holds -----

  ghost predicate IsLast(ps: seq<Page>, k: nat) {
    k < |ps| && forall j :: k < j < |ps| ==> ps[j].vaddr != ps[k].vaddr
  }

  /** The entry has the size of the page added last, and the fills of all pages at its address. */
  ghost predicate EntryOf(ps: seq<Page>, v: nat, e: Entry) {
    && (exists k: nat :: IsLast(ps, k) && ps[k].vaddr == v && ps[k].size == e.size)
    && (forall f :: f in e.fills <==> exists k :: 0 <= k < |ps| && ps[k].vaddr == v && f in FillList(ps[k].fill))
  }

  lemma {:induction false} Collected(ps: seq<Page>, v: nat)
    ensures v in WithPages(map[], ps) <==> exists k :: 0 <= k < |ps| && ps[k].vaddr == v
    ensures v in WithPages(map[], ps) ==> EntryOf(ps, v, WithPages(map[], ps)[v])
    decreases |ps|
  {
    if ps != [] {
      var n := |ps| - 1;
      var qs, p := ps[..n], ps[n];
      Collected(qs, v);
      assert ps == qs + [p];
      assert IsLast(ps, n);
      var c := WithPages(map[], qs);
      if v in c { OneMoreEntry(qs, p, v, c[v]); }
      if v in c || v == p.vaddr { assert EntryOf(ps, v, WithPages(map[], ps)[v]); }
    }
  }

  lemma {:induction false} OneMoreEntry(qs: seq<Page>, p: Page, v: nat, e: Entry)
    requires EntryOf(qs, v, e)
    ensures EntryOf(qs + [p], v, if v == p.vaddr then Entry(p.size, e.fills + FillList(p.fill)) else e)
  {
    var ps := qs + [p];
    var k: nat :| IsLast(qs, k) && qs[k].vaddr == v && qs[k].size == e.size;
    if v == p.vaddr { assert IsLast(ps, |qs|) && ps[|qs|] == p; } else { assert IsLast(ps, k) && ps[k] == qs[k]; }
    var fills := if v == p.vaddr then e.fills + FillList(p.fill) else e.fills;
    forall f ensures f in fills <==> exists k :: 0 <= k < |ps| && ps[k].vaddr == v && f in FillList(ps[k].fill)
    {
      if k :| 0 <= k < |qs| && qs[k].vaddr == v && f in FillList(qs[k].fill) { assert ps[k] == qs[k]; }
      assert ps[|qs|] == p;
    }
  }

  // ----- the pages of all segments -----

  /** What is needed of a page of a segment: pages larger than the smallest end inside the segment. */
  predicate PageOf(seg: Segment, p: Page) {
    && seg.memsz > 0 && GoodPage(p) && p.fill == FillFor(p.vaddr, p.size, seg)
    && Down(seg.vaddr) <= p.vaddr && p.vaddr + p.size <= Up(End(seg))
    && (p.size == PAGE_SIZE || p.vaddr + p.size <= End(seg))
  }

  predicate SmallOrInside(ps: seq<Page>, e: int) {
    forall k :: 0 <= k < |ps| ==> ps[k].size == PAGE_SIZE || ps[k].vaddr + ps[k].size <= e
  }

  lemma {:induction false} PromoteInside(sizes: seq<nat>, v: nat, e: int, seg: Segment)
    ensures SmallOrInside(Promote(sizes, v, e, seg), e)
    decreases e - v
  {
    if v < e {
      PickFits(sizes, v, e - v);
      PromoteInside(sizes, v + Pick(sizes, v, e - v), e, seg);
    }
  }

  lemma {:induction false} AllInside(sizes: seq<nat>, rs: seq<Piece>, s: nat, e: nat, seg: Segment)
    requires Tiled(rs, s, e)
    ensures SmallOrInside(AllPages(sizes, rs, seg), e)
    decreases |rs|
  {
    if rs != [] {
      var n := |rs| - 1;
      TiledOrder(rs, s, e, n);
      AllInside(sizes, rs[..n], s, rs[n].addr, seg);
      if !rs[n].existing { PromoteInside(sizes, Down(rs[n].addr), rs[n].addr + rs[n].size, seg); }
    }
  }

  lemma {:induction false} SegmentPages(sizes: seq<nat>, seg: Segment, frames: seq<Frame>)
    requires GoodSizes(sizes) && GoodFrames(frames) && seg.memsz > 0 && GetPages(sizes, seg, frames).Some?
    ensures var ps := GetPages(sizes, seg, frames).value;
            PagesTile(ps, Down(seg.vaddr), Up(End(seg))) && forall k :: 0 <= k < |ps| ==> PageOf(seg, ps[k])
  {
    RegionsExact(seg, frames);
    var fs := RegionsInSegment(seg, frames).value;
    SplitExact(seg, fs);
    var rs := Split(seg, fs).value;
    AllPagesTile(sizes, rs, seg.vaddr, End(seg), seg);
    AllInside(sizes, rs, seg.vaddr, End(seg), seg);
    var ps := AllPages(sizes, rs, seg);
    TilesGood(ps, Down(seg.vaddr), Up(End(seg)));
    TilesDisjoint(ps, Down(seg.vaddr), Up(End(seg)));
  }

  lemma {:induction false} TilesGood(ps: seq<Page>, s: nat, e: nat)
    requires PagesTile(ps, s, e)
    ensures forall k :: 0 <= k < |ps| ==> GoodPage(ps[k])
    decreases |ps|
  {
    if ps != [] {
      TilesGood(ps[1..], s + ps[0].size, e);
      assert ps == [ps[0]] + ps[1..];
    }
  }

  lemma {:induction false} TilesCover(ps: seq<Page>, s: nat, e: nat, a: nat) returns (k: nat)
    requires PagesTile(ps, s, e) && s <= a < e
    ensures k < |ps| && Maps(ps[k], a)
    decreases |ps|
  {
    if Maps(ps[0], a) {
      k := 0;
    } else {
      k := TilesCover(ps[1..], s + ps[0].size, e, a);
      k := k + 1;
    }
  }

  predicate Covers(seg: Segment, a: nat) {
    seg.memsz > 0 && Down(seg.vaddr) <= a < Up(End(seg))
  }

  /** `own[k]` is the segment of page `k`. */
  ghost predicate Owned(ps: seq<Page>, own: seq<nat>, segs: seq<Segment>) {
    && |own| == |ps|
    && (forall k :: 0 <= k < |ps| ==> own[k] < |segs| && PageOf(segs[own[k]], ps[k]))
    && (forall k, l :: 0 <= k < l < |ps| ==> own[k] <= own[l])
    && (forall k, l :: 0 <= k < l < |ps| && own[k] == own[l] ==> ps[k].vaddr + ps[k].size <= ps[l].vaddr)
  }

  /** Every address of the segments is in a page of its own segment. */
  ghost predicate AllCovered(ps: seq<Page>, own: seq<nat>, segs: seq<Segment>) {
    && |own| == |ps|
    && forall i: nat, a: nat :: i < |segs| && Covers(segs[i], a) ==> CoveredBy(ps, own, i, a)
  }

  ghost predicate CoveredBy(ps: seq<Page>, own: seq<nat>, i: nat, a: nat)
    requires |own| == |ps|
  {
    exists k :: 0 <= k < |ps| && own[k] == i && Maps(ps[k], a)
  }

  ghost predicate AllSegmentsPlaced(segs: seq<Segment>, frames: seq<Frame>) {
    forall i :: 0 <= i < |segs| && segs[i].memsz > 0 ==> AllPlaced(segs[i], frames)
  }

  lemma {:induction false} FilePagesOwned(sizes: seq<nat>, segs: seq<Segment>, frames: seq<Frame>)
    returns (own: seq<nat>)
    requires GoodSizes(sizes) && GoodFrames(frames)
    ensures FilePages(sizes, segs, frames).Some? <==> AllSegmentsPlaced(segs, frames)
    ensures FilePages(sizes, segs, frames).Some? ==>
              var ps := FilePages(sizes, segs, frames).value; Owned(ps, own, segs) && AllCovered(ps, own, segs)
    decreases |segs|
  {
    own := [];
    if segs != [] {
      var n := |segs| - 1;
      var rest, seg := segs[..n], segs[n];
      assert segs == rest + [seg];
      own := FilePagesOwned(sizes, rest, frames);
      SegmentSome(sizes, seg, frames);
      var ps, qs := FilePages(sizes, rest, frames), GetPages(sizes, seg, frames);
      if ps.Some? && qs.Some? { own := AppendOwned(ps.value, own, rest, qs.value, seg, sizes, frames); }
    }
  }

  lemma {:induction false} SegmentSome(sizes: seq<nat>, seg: Segment, frames: seq<Frame>)
    requires GoodSizes(sizes) && GoodFrames(frames)
    ensures GetPages(sizes, seg, frames).Some? <==> seg.memsz == 0 || AllPlaced(seg, frames)
  {
    RegionsExact(seg, frames);
    if seg.memsz > 0 && RegionsInSegment(seg, frames).Some? {
      SplitExact(seg, RegionsInSegment(seg, frames).value);
    }
  }

  lemma {:induction false} AppendOwned(ps: seq<Page>, own: seq<nat>, segs: seq<Segment>, qs: seq<Page>, seg: Segment,
                                       sizes: seq<nat>, frames: seq<Frame>) returns (all: seq<nat>)
    requires Owned(ps, own, segs) && AllCovered(ps, own, segs)
    requires GoodSizes(sizes) && GoodFrames(frames) && GetPages(sizes, seg, frames) == Some(qs)
    ensures Owned(ps + qs, all, segs + [seg]) && AllCovered(ps + qs, all, segs + [seg])
  {
    var n := |segs|;
    all := own + seq(|qs|, i => n);
    if seg.memsz > 0 {
      SegmentPages(sizes, seg, frames);
      TilesDisjoint(qs, Down(seg.vaddr), Up(End(seg)));
    }
    AppendCovered(ps, own, segs, qs, seg, all);
  }

  lemma {:induction false} AppendCovered(ps: seq<Page>, own: seq<nat>, segs: seq<Segment>, qs: seq<Page>, seg: Segment,
                                         all: seq<nat>)
    requires |own| == |ps| && AllCovered(ps, own, segs) && all == own + seq(|qs|, i => |segs|)
    requires seg.memsz > 0 ==> PagesTile(qs, Down(seg.vaddr), Up(End(seg)))
    ensures AllCovered(ps + qs, all, segs + [seg])
  {
    var n := |segs|;
    forall i: nat, a: nat | i <= n && Covers((segs + [seg])[i], a) ensures CoveredBy(ps + qs, all, i, a) {
      if i < n {
        assert CoveredBy(ps, own, i, a);
        var k :| 0 <= k < |ps| && own[k] == i && Maps(ps[k], a);
        assert (ps + qs)[k] == ps[k] && all[k] == i;
      } else {
        var k := TilesCover(qs, Down(seg.vaddr), Up(End(seg)), a);
        assert (ps + qs)[|ps| + k] == qs[k] && all[|ps| + k] == n;
      }
    }
  }

  // ----- pages of different segments -----

  /** Segments with memory do not overlap, and have no more bytes in the file than in memory. */
  predicate GoodFile(segs: seq<Segment>) {
    && (forall i :: 0 <= i < |segs| && segs[i].memsz > 0 ==> segs[i].filesz <= segs[i].memsz)
    && (forall i, j :: 0 <= i < j < |segs| && segs[i].memsz > 0 && segs[j].memsz > 0 ==>
            SegmentsApart(segs[i], segs[j]))
  }

  predicate SegmentsApart(a: Segment, b: Segment) {
    End(a) <= b.vaddr || End(b) <= a.vaddr
  }

  /** Two pages share an address. */
  predicate PagesMeet(p: Page, q: Page) {
    p.vaddr < q.vaddr + q.size && q.vaddr < p.vaddr + p.size
  }

  lemma {:induction false} OnPageBelow(m: nat, n: nat)
    requires OnPage(m) && m <= n
    ensures m <= Down(n)
  {
  }

  lemma {:induction false} SamePage(m: nat, n: nat)
    requires OnPage(m) && OnPage(n) && m <= n < m + PAGE_SIZE
    ensures m == n
  {
  }

  lemma {:induction false} UpMonotone(m: nat, n: nat)
    requires m <= n
    ensures Up(m) <= Up(n) < n + PAGE_SIZE
  {
  }

  /** Pages of two segments, one below the other, meet in one small page only, the last of the lower segment. */
  lemma {:induction false} OnlySmallMeet(a: Segment, b: Segment, p: Page, q: Page)
    requires PageOf(a, p) && PageOf(b, q) && End(a) <= b.vaddr && PagesMeet(p, q)
    ensures p.vaddr == q.vaddr && p.size == PAGE_SIZE
  {
    var v, e := p.vaddr, p.vaddr + p.size;
    assert Down(b.vaddr) <= q.vaddr < e && OnPage(e) by { EndOnPage(p); }
    if e <= b.vaddr {
      OnPageBelow(e, b.vaddr);
      assert false;
    }
    assert p.size == PAGE_SIZE;
    UpMonotone(End(a), b.vaddr);
    OnPageBelow(v, b.vaddr);
    SamePage(v, q.vaddr);
  }

  lemma {:induction false} EndOnPage(p: Page)
    requires GoodPage(p)
    ensures OnPage(p.vaddr + p.size)
  {
  }

  /** Pages that meet have the same address, and one of them is small if they are of different segments. */
  lemma {:induction false} MeetSame(ps: seq<Page>, own: seq<nat>, segs: seq<Segment>, k: nat, l: nat)
    requires GoodFile(segs) && Owned(ps, own, segs) && k < |ps| && l < |ps| && PagesMeet(ps[k], ps[l])
    ensures ps[k].vaddr == ps[l].vaddr
    ensures k != l ==> ps[k].size == PAGE_SIZE || ps[l].size == PAGE_SIZE
    ensures k != l ==> own[k] != own[l]
  {
    if k != l {
      if k < l { OwnersDiffer(ps, own, segs, k, l); } else { OwnersDiffer(ps, own, segs, l, k); }
      var a, b := segs[own[k]], segs[own[l]];
      assert PageOf(a, ps[k]) && PageOf(b, ps[l]);
      assert SegmentsApart(a, b) by { if own[k] < own[l] { assert SegmentsApart(a, b); }
             else { assert SegmentsApart(b, a); } }
      if End(a) <= b.vaddr { OnlySmallMeet(a, b, ps[k], ps[l]); } else { OnlySmallMeet(b, a, ps[l], ps[k]); }
    }
  }

  lemma {:induction false} OwnersDiffer(ps: seq<Page>, own: seq<nat>, segs: seq<Segment>, k: nat, l: nat)
    requires Owned(ps, own, segs) && k < l < |ps| && PagesMeet(ps[k], ps[l])
    ensures own[k] < own[l]
  {
  }

  // ----- pages in the collection do not overlap -----

  ghost predicate NoOverlap(c: Collection) {
    forall v, w :: v in c && w in c && v < w ==> v + c[v].size <= w
  }

  /** The page that gives an entry its size. */
  lemma {:induction false} SizedBy(ps: seq<Page>, v: nat) returns (k: nat)
    requires v in WithPages(map[], ps)
    ensures IsLast(ps, k) && ps[k].vaddr == v && ps[k].size == WithPages(map[], ps)[v].size
  {
    Collected(ps, v);
    k :| IsLast(ps, k) && ps[k].vaddr == v && ps[k].size == WithPages(map[], ps)[v].size;
  }

  lemma {:induction false} NeverOverlaps(ps: seq<Page>, own: seq<nat>, segs: seq<Segment>)
    requires GoodFile(segs) && Owned(ps, own, segs)
    ensures NoOverlap(WithPages(map[], ps))
  {
    var c := WithPages(map[], ps);
    forall v, w | v in c && w in c && v < w ensures v + c[v].size <= w {
      var k := SizedBy(ps, v);
      var l := SizedBy(ps, w);
      assert PageOf(segs[own[l]], ps[l]);
      if PagesMeet(ps[k], ps[l]) { MeetSame(ps, own, segs, k, l); }
    }
  }

  // ----- memory -----

  /** The byte at an offset of a page: fills are copied one after the other into zeroed memory. */
  function FilledByte(fills: seq<Fill>, file: nat -> int, i: nat): int {
    if fills == [] then 0
    else
      var f := fills[|fills| - 1];
      if f.Data? && f.dest <= i < f.dest + f.len then file(f.src + (i - f.dest))
      else FilledByte(fills[..|fills| - 1], file, i)
  }

  predicate WritesAt(f: Fill, i: nat) {
    f.Data? && f.dest <= i < f.dest + f.len
  }

  lemma {:induction false} FilledByteIs(fills: seq<Fill>, file: nat -> int, i: nat, b: int)
    requires forall f :: f in fills && WritesAt(f, i) ==> file(f.src + (i - f.dest)) == b
    ensures FilledByte(fills, file, i) == if exists f :: f in fills && WritesAt(f, i) then b else 0
    decreases |fills|
  {
    if fills != [] {
      var n := |fills| - 1;
      assert fills == fills[..n] + [fills[n]];
      FilledByteIs(fills[..n], file, i, b);
      assert WritesAt(fills[n], i) ==> fills[n] in fills;
    }
  }

  ghost predicate EntryHas(c: Collection, v: nat, a: nat) {
    v in c && v <= a < v + c[v].size
  }

  /** What the loaded program finds at an address. */
  ghost function FileMemory(c: Collection, file: nat -> int, a: nat): Option<int> {
    if v: nat :| EntryHas(c, v, a) then Some(FilledByte(c[v].fills, file, a - v)) else None
  }

  ghost predicate HasByte(segs: seq<Segment>, i: nat, a: nat) {
    i < |segs| && segs[i].memsz > 0 && FromFile(segs[i], a)
  }

  /** The image all segments stand for together. */
  ghost function FileImage(segs: seq<Segment>, file: nat -> int, a: nat): Option<int> {
    if !exists i :: 0 <= i < |segs| && Covers(segs[i], a) then None
    else if i: nat :| HasByte(segs, i, a) then Some(file(segs[i].offset + (a - segs[i].vaddr)))
    else Some(0)
  }

  /** No page becomes smaller by being added again. */
  predicate NeverShrinks(ps: seq<Page>) {
    forall k, l :: 0 <= k < l < |ps| && ps[k].vaddr == ps[l].vaddr ==> ps[k].size <= ps[l].size
  }

  /** If no page shrinks, an address is mapped if and only if it is in a page of some segment. */
  lemma {:induction false} EntryOver(ps: seq<Page>, own: seq<nat>, segs: seq<Segment>, a: nat, k: nat)
    requires Owned(ps, own, segs) && NeverShrinks(ps) && k < |ps| && Maps(ps[k], a)
    ensures EntryHas(WithPages(map[], ps), ps[k].vaddr, a)
  {
    Collected(ps, ps[k].vaddr);
    var l := SizedBy(ps, ps[k].vaddr);
    assert k <= l;
  }

  lemma {:induction false} EntryUnder(ps: seq<Page>, own: seq<nat>, segs: seq<Segment>, v: nat, a: nat) returns (k: nat)
    requires Owned(ps, own, segs) && EntryHas(WithPages(map[], ps), v, a)
    ensures k < |ps| && ps[k].vaddr == v && Maps(ps[k], a) && own[k] < |segs| && Covers(segs[own[k]], a)
  {
    k := SizedBy(ps, v);
    assert PageOf(segs[own[k]], ps[k]);
  }

  /** All fills of an entry that write an address write the byte of the segment that has it. */
  lemma {:induction false} FillsAgree(ps: seq<Page>, own: seq<nat>, segs: seq<Segment>, v: nat, a: nat, i: nat, f: Fill)
    requires GoodFile(segs) && Owned(ps, own, segs) && EntryHas(WithPages(map[], ps), v, a)
    requires f in WithPages(map[], ps)[v].fills && WritesAt(f, a - v)
    ensures exists j: nat :: HasByte(segs, j, a)
    ensures HasByte(segs, i, a) ==> f.src + (a - v - f.dest) == segs[i].offset + (a - segs[i].vaddr)
  {
    Collected(ps, v);
    var k :| 0 <= k < |ps| && ps[k].vaddr == v && f in FillList(ps[k].fill);
    var seg := segs[own[k]];
    assert PageOf(seg, ps[k]);
    FillWrites(seg, ps[k], a);
    assert HasByte(segs, own[k], a);
    if HasByte(segs, i, a) { OneHasByte(segs, own[k], i, a); }
  }

  lemma {:induction false} FillWrites(seg: Segment, p: Page, a: nat)
    requires PageOf(seg, p) && Writes(p, a)
    ensures FromFile(seg, a) && p.fill.src + (a - p.vaddr - p.fill.dest) == seg.offset + (a - seg.vaddr)
  {
    UpFixed(seg.vaddr);
    StartsBelow(seg, p);
    FillExact(p, seg, a);
  }

  lemma {:induction false} StartsBelow(seg: Segment, p: Page)
    requires PageOf(seg, p)
    ensures seg.vaddr < p.vaddr + p.size
  {
    UpFixed(seg.vaddr);
  }

  lemma {:induction false} OneHasByte(segs: seq<Segment>, i: nat, j: nat, a: nat)
    requires GoodFile(segs) && HasByte(segs, i, a) && HasByte(segs, j, a)
    ensures i == j
  {
  }

  /** The segment that has a byte fills it into the entry that maps the address. */
  lemma {:induction false} ByteFilled(ps: seq<Page>, own: seq<nat>, segs: seq<Segment>, v: nat, a: nat, i: nat)
    returns (f: Fill)
    requires GoodFile(segs) && Owned(ps, own, segs) && AllCovered(ps, own, segs)
    requires EntryHas(WithPages(map[], ps), v, a) && HasByte(segs, i, a)
    ensures f in WithPages(map[], ps)[v].fills && WritesAt(f, a - v)
  {
    ByteCovered(segs[i], a);
    assert CoveredBy(ps, own, i, a);
    var k :| 0 <= k < |ps| && own[k] == i && Maps(ps[k], a);
    var l := EntryUnder(ps, own, segs, v, a);
    assert PageOf(segs[i], ps[k]);
    MeetSame(ps, own, segs, k, l);
    StartsBelow(segs[i], ps[k]);
    FillExact(ps[k], segs[i], a);
    Collected(ps, v);
    f := ps[k].fill;
    assert f in FillList(ps[k].fill);
  }

  lemma {:induction false} ByteCovered(seg: Segment, a: nat)
    requires seg.memsz > 0 && seg.filesz <= seg.memsz && FromFile(seg, a)
    ensures Covers(seg, a)
  {
    UpFixed(seg.vaddr);
    UpFixed(End(seg));
  }

  /** The byte in any entry that maps an address. */
  lemma {:induction false} ByteInEntry(ps: seq<Page>, own: seq<nat>, segs: seq<Segment>, file: nat -> int, v: nat,
                                       a: nat)
    requires GoodFile(segs) && Owned(ps, own, segs) && AllCovered(ps, own, segs)
    requires EntryHas(WithPages(map[], ps), v, a)
    ensures Some(FilledByte(WithPages(map[], ps)[v].fills, file, a - v)) == FileImage(segs, file, a)
  {
    if i: nat :| HasByte(segs, i, a) {
      ByteOfSegment(ps, own, segs, file, v, a, i);
      ImageByte(segs, file, a, i);
    } else {
      ByteOfNone(ps, own, segs, file, v, a);
    }
  }

  lemma {:induction false} ByteOfSegment(ps: seq<Page>, own: seq<nat>, segs: seq<Segment>, file: nat -> int, v: nat,
                                         a: nat, i: nat)
    requires GoodFile(segs) && Owned(ps, own, segs) && AllCovered(ps, own, segs)
    requires EntryHas(WithPages(map[], ps), v, a) && HasByte(segs, i, a)
    ensures FilledByte(WithPages(map[], ps)[v].fills, file, a - v) == file(segs[i].offset + (a - segs[i].vaddr))
  {
    AllFillsAgree(ps, own, segs, v, a, i);
    var f := ByteFilled(ps, own, segs, v, a, i);
    FilledFrom(WithPages(map[], ps)[v].fills, file, a - v, segs[i].offset + (a - segs[i].vaddr), f);
  }

  lemma {:induction false} AllFillsAgree(ps: seq<Page>, own: seq<nat>, segs: seq<Segment>, v: nat, a: nat, i: nat)
    requires GoodFile(segs) && Owned(ps, own, segs)
    requires EntryHas(WithPages(map[], ps), v, a) && HasByte(segs, i, a)
    ensures forall f :: f in WithPages(map[], ps)[v].fills && WritesAt(f, a - v) ==>
              f.src + (a - v - f.dest) == segs[i].offset + (a - segs[i].vaddr)
  {
    forall f | f in WithPages(map[], ps)[v].fills && WritesAt(f, a - v)
      ensures f.src + (a - v - f.dest) == segs[i].offset + (a - segs[i].vaddr)
    {
      FillsAgree(ps, own, segs, v, a, i, f);
    }
  }

  lemma {:induction false} FilledFrom(fills: seq<Fill>, file: nat -> int, i: nat, at: nat, f: Fill)
    requires f in fills && WritesAt(f, i) && forall f :: f in fills && WritesAt(f, i) ==> f.src + (i - f.dest) == at
    ensures FilledByte(fills, file, i) == file(at)
  {
    FilledByteIs(fills, file, i, file(at));
  }

  lemma {:induction false} ByteOfNone(ps: seq<Page>, own: seq<nat>, segs: seq<Segment>, file: nat -> int, v: nat,
                                      a: nat)
    requires GoodFile(segs) && Owned(ps, own, segs) && EntryHas(WithPages(map[], ps), v, a)
    requires !exists i: nat :: HasByte(segs, i, a)
    ensures Some(FilledByte(WithPages(map[], ps)[v].fills, file, a - v)) == FileImage(segs, file, a)
  {
    var fills := WithPages(map[], ps)[v].fills;
    forall f | f in fills ensures !WritesAt(f, a - v) {
      if WritesAt(f, a - v) { FillsAgree(ps, own, segs, v, a, 0, f); }
    }
    FilledByteIs(fills, file, a - v, 0);
    var k := EntryUnder(ps, own, segs, v, a);
    assert Covers(segs[own[k]], a);
  }

  lemma {:induction false} ImageByte(segs: seq<Segment>, file: nat -> int, a: nat, i: nat)
    requires GoodFile(segs) && HasByte(segs, i, a)
    ensures FileImage(segs, file, a) == Some(file(segs[i].offset + (a - segs[i].vaddr)))
  {
    ByteCovered(segs[i], a);
    forall j: nat | HasByte(segs, j, a) ensures j == i { OneHasByte(segs, i, j, a); }
  }

  /** A page that has shrunk does not grow again: two segments cannot both have a large page at one address. */
  lemma {:induction false} StaysSmall(ps: seq<Page>, own: seq<nat>, segs: seq<Segment>, k: nat, l: nat, m: nat)
    requires GoodFile(segs) && Owned(ps, own, segs) && k < l < |ps| && IsLast(ps, m)
    requires ps[k].vaddr == ps[l].vaddr == ps[m].vaddr && ps[k].size > ps[l].size
    ensures ps[m].size < ps[k].size
  {
    assert PageOf(segs[own[k]], ps[k]) && PageOf(segs[own[l]], ps[l]) && PageOf(segs[own[m]], ps[m]);
    assert m >= l;
    MeetSame(ps, own, segs, k, m);
  }

  /** If a page shrinks, its last byte is not mapped any more. */
  lemma {:induction false} ShrunkIsLost(ps: seq<Page>, own: seq<nat>, segs: seq<Segment>, k: nat, l: nat)
    returns (a: nat)
    requires GoodFile(segs) && Owned(ps, own, segs) && k < l < |ps|
    requires ps[k].vaddr == ps[l].vaddr && ps[k].size > ps[l].size
    ensures Covers(segs[own[k]], a) && forall v: nat :: !EntryHas(WithPages(map[], ps), v, a)
  {
    assert PageOf(segs[own[k]], ps[k]);
    a := ps[k].vaddr + ps[k].size - 1;
    forall v: nat ensures !EntryHas(WithPages(map[], ps), v, a) {
      if v in WithPages(map[], ps) {
        var m := SizedBy(ps, v);
        if PagesMeet(ps[k], ps[m]) {
          MeetSame(ps, own, segs, k, m);
          StaysSmall(ps, own, segs, k, l, m);
        }
      }
    }
  }

  /** Memory is the image if and only if no page shrinks. */
  lemma {:induction false} MemoryExactIff(ps: seq<Page>, own: seq<nat>, segs: seq<Segment>, file: nat -> int)
    requires GoodFile(segs) && Owned(ps, own, segs) && AllCovered(ps, own, segs)
    ensures (forall a: nat :: FileMemory(WithPages(map[], ps), file, a) == FileImage(segs, file, a))
            <==> NeverShrinks(ps)
  {
    if NeverShrinks(ps) {
      forall a: nat ensures FileMemory(WithPages(map[], ps), file, a) == FileImage(segs, file, a) {
        MemoryIsImage(ps, own, segs, file, a);
      }
    } else {
      var k, l :| 0 <= k < l < |ps| && ps[k].vaddr == ps[l].vaddr && ps[k].size > ps[l].size;
      var a := ShrunkIsLost(ps, own, segs, k, l);
      LostIsMissed(WithPages(map[], ps), segs, own[k], file, a);
    }
  }

  lemma {:induction false} LostIsMissed(c: Collection, segs: seq<Segment>, i: nat, file: nat -> int, a: nat)
    requires i < |segs| && Covers(segs[i], a) && forall v: nat :: !EntryHas(c, v, a)
    ensures FileMemory(c, file, a) != FileImage(segs, file, a)
  {
  }

  /**
   A file whose segments do not overlap. Its pages exist if and only if no existing frame is placed badly in a segment.
   However the segments share pages, no two pages in the dictionary overlap. Memory is the image of all segments
   together if and only if no page is made smaller when a second segment adds it.
   */
  lemma {:induction false} FileExact(sizes: seq<nat>, segs: seq<Segment>, frames: seq<Frame>, file: nat -> int)
    requires GoodSizes(sizes) && GoodFrames(frames) && GoodFile(segs)
    ensures FilePages(sizes, segs, frames).Some? <==> AllSegmentsPlaced(segs, frames)
    ensures FilePages(sizes, segs, frames).Some? ==>
              var ps := FilePages(sizes, segs, frames).value;
              var c := WithPages(map[], ps);
              && NoOverlap(c)
              && ((forall a: nat :: FileMemory(c, file, a) == FileImage(segs, file, a)) <==> NeverShrinks(ps))
  {
    var own := FilePagesOwned(sizes, segs, frames);
    if FilePages(sizes, segs, frames).Some? {
      NeverOverlaps(FilePages(sizes, segs, frames).value, own, segs);
      MemoryExactIff(FilePages(sizes, segs, frames).value, own, segs, file);
    }
  }

  lemma {:induction false} MemoryIsImage(ps: seq<Page>, own: seq<nat>, segs: seq<Segment>, file: nat -> int, a: nat)
    requires GoodFile(segs) && Owned(ps, own, segs) && AllCovered(ps, own, segs) && NeverShrinks(ps)
    ensures FileMemory(WithPages(map[], ps), file, a) == FileImage(segs, file, a)
  {
    var c := WithPages(map[], ps);
    forall v: nat | EntryHas(c, v, a)
      ensures Some(FilledByte(c[v].fills, file, a - v)) == FileImage(segs, file, a)
    {
      ByteInEntry(ps, own, segs, file, v, a);
    }
    if i :| 0 <= i < |segs| && Covers(segs[i], a) {
      assert CoveredBy(ps, own, i, a);
      var k :| 0 <= k < |ps| && own[k] == i && Maps(ps[k], a);
      EntryOver(ps, own, segs, a, k);
    }
  }

  // ----- the order of the segments -----

  /** Loadable segments in ascending order of their addresses, as the ELF standard demands. */
  predicate Ascending(segs: seq<Segment>) {
    forall i, j :: 0 <= i < j < |segs| && segs[i].memsz > 0 && segs[j].memsz > 0 ==> End(segs[i]) <= segs[j].vaddr
  }

  /** In that order only the last page of a segment is added again, and it is small. */
  lemma {:induction false} AscendingNeverShrinks(ps: seq<Page>, own: seq<nat>, segs: seq<Segment>)
    requires Ascending(segs) && Owned(ps, own, segs)
    ensures NeverShrinks(ps)
  {
    forall k, l | 0 <= k < l < |ps| && ps[k].vaddr == ps[l].vaddr ensures ps[k].size <= ps[l].size {
      assert PageOf(segs[own[k]], ps[k]) && PageOf(segs[own[l]], ps[l]);
      OwnersDiffer(ps, own, segs, k, l);
      OnlySmallMeet(segs[own[k]], segs[own[l]], ps[k], ps[l]);
    }
  }

  /** A file as the ELF standard has it is loaded exactly, also where two segments meet inside a page. */
  lemma {:induction false} FileLoaded(sizes: seq<nat>, segs: seq<Segment>, frames: seq<Frame>, file: nat -> int)
    requires GoodSizes(sizes) && GoodFrames(frames) && GoodFile(segs) && Ascending(segs)
    requires AllSegmentsPlaced(segs, frames)
    ensures FilePages(sizes, segs, frames).Some?
    ensures var c := WithPages(map[], FilePages(sizes, segs, frames).value);
            NoOverlap(c) && forall a: nat :: FileMemory(c, file, a) == FileImage(segs, file, a)
  {
    FileExact(sizes, segs, frames, file);
    var own := FilePagesOwned(sizes, segs, frames);
    AscendingNeverShrinks(FilePages(sizes, segs, frames).value, own, segs);
  }

  /**
   In another order memory can be lost: a segment that starts on a page of 2 MiB, followed in the file by a small one
   that lies in front of it on the same page. The page becomes a small one.
   */
  lemma {:induction false} OutOfOrderShrinks(segs: seq<Segment>, file: nat -> int)
    requires segs == [Segment(0x20_0800, 0x20_0000, 0, 0), Segment(0x20_0000, 0x400, 0, 0)]
    ensures GoodFile(segs) && FilePages([0x20_0000], segs, []).Some?
    ensures var c := WithPages(map[], FilePages([0x20_0000], segs, []).value);
            exists a: nat :: FileMemory(c, file, a) != FileImage(segs, file, a)
  {
    ShrinkingPages(segs);
    FileExact([0x20_0000], segs, [], file);
  }

  lemma {:induction false} ShrinkingPages(segs: seq<Segment>)
    requires segs == [Segment(0x20_0800, 0x20_0000, 0, 0), Segment(0x20_0000, 0x400, 0, 0)]
    ensures GoodFile(segs) && FilePages([0x20_0000], segs, []).Some?
    ensures !NeverShrinks(FilePages([0x20_0000], segs, []).value)
  {
    var sizes := [0x20_0000];
    LargeFirst(segs[0]);
    SmallOnly(segs[1]);
    TwoSegments(sizes, segs[0], segs[1]);
    assert segs == [segs[0], segs[1]];
    Shrinks(FilePages(sizes, segs, []).value, 0, 2);
  }

  lemma {:induction false} Shrinks(ps: seq<Page>, k: nat, l: nat)
    requires k < l < |ps| && ps[k].vaddr == ps[l].vaddr && ps[k].size > ps[l].size
    ensures !NeverShrinks(ps)
  {
  }

  lemma {:induction false} TwoSegments(sizes: seq<nat>, a: Segment, b: Segment)
    requires GetPages(sizes, a, []).Some? && GetPages(sizes, b, []).Some?
    ensures FilePages(sizes, [a, b], []) == Some(GetPages(sizes, a, []).value + GetPages(sizes, b, []).value)
  {
    assert [a, b][..1] == [a] && [a][..0] == [];
    var ps := GetPages(sizes, a, []).value;
    assert [] + ps == ps;
    assert FilePages(sizes, [a], []) == Some(ps);
    assert FilePages(sizes, [a, b][..1], []) == Some(ps);
  }

  /** Without existing frames the whole segment is one piece. */
  lemma {:induction false} OnePiece(sizes: seq<nat>, seg: Segment)
    requires seg.memsz > 0
    ensures GetPages(sizes, seg, []) == Some(Promote(sizes, Down(seg.vaddr), End(seg), seg))
  {
    var rs := [Piece(seg.vaddr, seg.memsz, false)];
    assert rs[..0] == [];
    var ps := Promote(sizes, Down(seg.vaddr), End(seg), seg);
    assert AllPages(sizes, rs, seg) == [] + ps;
    assert [] + ps == ps;
  }

  lemma {:induction false} LargeFirst(seg: Segment)
    requires seg == Segment(0x20_0800, 0x20_0000, 0, 0)
    ensures GetPages([0x20_0000], seg, [])
         == Some([Page(0x20_0000, 0x20_0000, Nothing), Page(0x40_0000, PAGE_SIZE, Nothing)])
  {
    var sizes, e := [0x20_0000], 0x40_0800;
    OnePiece(sizes, seg);
    assert sizes[1..] == [] && Down(seg.vaddr) == 0x20_0000;
    assert Promote(sizes, 0x40_1000, e, seg) == [];
    assert Promote(sizes, 0x40_0000, e, seg) == [Page(0x40_0000, PAGE_SIZE, Nothing)];
    var ps := [Page(0x20_0000, 0x20_0000, Nothing), Page(0x40_0000, PAGE_SIZE, Nothing)];
    assert ps == [ps[0]] + [ps[1]];
    assert Promote(sizes, 0x20_0000, e, seg) == ps;
    assert End(seg) == e;
  }

  lemma {:induction false} SmallOnly(seg: Segment)
    requires seg == Segment(0x20_0000, 0x400, 0, 0)
    ensures GetPages([0x20_0000], seg, []) == Some([Page(0x20_0000, PAGE_SIZE, Nothing)])
  {
    var sizes, e := [0x20_0000], 0x20_0400;
    OnePiece(sizes, seg);
    assert sizes[1..] == [] && Down(seg.vaddr) == 0x20_0000;
    assert Promote(sizes, 0x20_1000, e, seg) == [];
    assert Promote(sizes, 0x20_0000, e, seg) == [Page(0x20_0000, PAGE_SIZE, Nothing)];
    assert End(seg) == e;
  }
}
