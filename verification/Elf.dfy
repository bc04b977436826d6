/**
 `ELF.get_pages` for one loadable segment: the segment is split around frames that exist already, the
 rest is cut into pages as large as possible, and every page gets the part of the file that belongs in it.
 */
module Elf {
  import opened Wrappers
  import opened Arithmetic
  import opened Physical

  /** The fields of a program header that matter here. */
  datatype Segment = Segment(vaddr: nat, memsz: nat, filesz: nat, offset: nat)

  datatype Frame = Frame(vaddr: nat, size: nat)

  datatype Piece = Piece(addr: nat, size: int, existing: bool)

  /** A copy of `len` bytes from the file; `Fails` stands for the assertion that the segment has a part in the page. */
  datatype Fill = Fails | Nothing | Data(dest: nat, len: nat, src: nat)

  datatype Page = Page(vaddr: nat, size: nat, fill: Fill)

  function End(seg: Segment): nat { seg.vaddr + seg.memsz }

  function Down(n: nat): nat { n / PAGE_SIZE * PAGE_SIZE }

  function Up(n: nat): nat { Down(n + PAGE_SIZE - 1) }

  predicate OnPage(n: int) { n % PAGE_SIZE == 0 }

  // ----- existing frames inside the segment -----

  /** `None` if a frame is neither outside nor inside. A frame that ends exactly at the start counts as not outside. */
  function RegionsInSegment(seg: Segment, frames: seq<Frame>): Option<seq<Frame>> {
    if frames == [] then Some([])
    else
      var f := frames[|frames| - 1];
      match RegionsInSegment(seg, frames[..|frames| - 1])
      case None => None
      case Some(fs) =>
        if f.vaddr >= End(seg) || f.vaddr + f.size < seg.vaddr then Some(fs)
        else if Contained(seg, f) then Some(fs + [f])
        else None
  }

  predicate Contained(seg: Segment, f: Frame) {
    seg.vaddr <= f.vaddr && f.vaddr + f.size <= End(seg)
  }

  // ----- splitting -----

  /** Binary search for the region that holds an address. */
  function Search(rs: seq<Piece>, v: nat, s: int, e: int): (r: Option<nat>)
    requires 0 <= s && e < |rs|
    ensures r.Some? ==> r.value < |rs| && rs[r.value].addr <= v < rs[r.value].addr + rs[r.value].size
    decreases e - s
  {
    if s > e then None
    else
      var m := s + (e - s) / 2;
      if rs[m].addr <= v < rs[m].addr + rs[m].size then Some(m)
      else if v >= rs[m].addr + rs[m].size then Search(rs, v, m + 1, e)
      else Search(rs, v, s, m - 1)
  }

  /** The region holding the frame shrinks to what precedes it; the frame and what follows it are appended. */
  function SplitAt(rs: seq<Piece>, f: Frame): Option<seq<Piece>> {
    match Search(rs, f.vaddr, 0, |rs| - 1)
    case None => None
    case Some(m) =>
      var r := rs[m];
      var before := f.vaddr - r.addr;
      var after := r.size - before - f.size;
      Some(rs[m := Piece(r.addr, before, r.existing)]
           + (if f.size != 0 then [Piece(f.vaddr, f.size, true)] else [])
           + (if after != 0 then [Piece(f.vaddr + f.size, after, false)] else []))
  }

  function Split(seg: Segment, fs: seq<Frame>): Option<seq<Piece>> {
    if fs == [] then Some([Piece(seg.vaddr, seg.memsz, false)])
    else
      match Split(seg, fs[..|fs| - 1])
      case None => None
      case Some(rs) => SplitAt(rs, fs[|fs| - 1])
  }

  // ----- pages -----

  /** `compute_elf_fill_frame`. */
  function FillFor(v: nat, size: nat, seg: Segment): Fill {
    var dest := if v >= seg.vaddr then 0 else seg.vaddr - v;
    if dest >= size then Fails
    else
      var inSegment := v + dest - seg.vaddr;
      if inSegment >= seg.filesz then Nothing
      else Data(dest, Min(size - dest, seg.filesz - inSegment), seg.offset + inSegment)
  }

  /** The first page size, of those given from large to small, that fits in what remains and to which `v` is aligned. */
  function Pick(sizes: seq<nat>, v: nat, remain: int): nat {
    if sizes == [] then PAGE_SIZE
    else if sizes[0] > 0 && remain >= sizes[0] && v % sizes[0] == 0 then sizes[0]
    else Pick(sizes[1..], v, remain)
  }

  lemma {:induction false} PickFits(sizes: seq<nat>, v: nat, remain: int)
    ensures var p := Pick(sizes, v, remain);
            p > 0 && (p == PAGE_SIZE || (p in sizes && remain >= p && v % p == 0))
    decreases |sizes|
  {
    if sizes != [] && !(sizes[0] > 0 && remain >= sizes[0] && v % sizes[0] == 0) { PickFits(sizes[1..], v, remain); }
  }

  predicate Admissible(size: nat, v: nat, remain: int) {
    size > 0 && remain >= size && v % size == 0
  }

  /** From sizes in descending order the largest admissible one is picked, and the smallest page if there is none. */
  lemma {:induction false} PickLargest(sizes: seq<nat>, v: nat, remain: int)
    requires forall i, j :: 0 <= i < j < |sizes| ==> sizes[i] >= sizes[j]
    ensures forall s :: s in sizes && Admissible(s, v, remain) ==> s <= Pick(sizes, v, remain)
    ensures (forall s :: s in sizes ==> !Admissible(s, v, remain)) ==> Pick(sizes, v, remain) == PAGE_SIZE
    decreases |sizes|
  {
    if sizes != [] && !Admissible(sizes[0], v, remain) { PickLargest(sizes[1..], v, remain); }
  }

  /** Pages from `v` until `e` is passed. */
  function Promote(sizes: seq<nat>, v: nat, e: int, seg: Segment): seq<Page>
    decreases e - v
  {
    if v >= e then []
    else
      PickFits(sizes, v, e - v);
      var size := Pick(sizes, v, e - v);
      [Page(v, size, FillFor(v, size, seg))] + Promote(sizes, v + size, e, seg)
  }

  function RegionPages(sizes: seq<nat>, r: Piece, seg: Segment): seq<Page> {
    if r.existing then
      var size := if r.size >= 0 then r.size else 0;
      [Page(r.addr, size, FillFor(r.addr, size, seg))]
    else Promote(sizes, Down(r.addr), r.addr + r.size, seg)
  }

  function AllPages(sizes: seq<nat>, rs: seq<Piece>, seg: Segment): seq<Page> {
    if rs == [] then [] else AllPages(sizes, rs[..|rs| - 1], seg) + RegionPages(sizes, rs[|rs| - 1], seg)
  }

  /** The pages of one segment, `None` where an assertion on the existing frames fails. */
  function GetPages(sizes: seq<nat>, seg: Segment, frames: seq<Frame>): Option<seq<Page>> {
    if seg.memsz == 0 then Some([])
    else
      match RegionsInSegment(seg, frames)
      case None => None
      case Some(fs) =>
        match Split(seg, fs)
        case None => None
        case Some(rs) => Some(AllPages(sizes, rs, seg))
  }

  // ----- what callers must provide -----

  /** Page sizes are multiples of the smallest. */
  predicate GoodSizes(sizes: seq<nat>) {
    forall i :: 0 <= i < |sizes| ==> sizes[i] > 0 && OnPage(sizes[i])
  }

  predicate GoodFrame(f: Frame) {
    f.size > 0 && OnPage(f.vaddr) && OnPage(f.size)
  }

  predicate FramesAligned(frames: seq<Frame>) {
    forall i :: 0 <= i < |frames| ==> frames[i].size > 0 && frames[i].vaddr % frames[i].size == 0
  }

  /** Page-aligned frames in ascending order that do not overlap. */
  predicate GoodFrames(frames: seq<Frame>) {
    && (forall i :: 0 <= i < |frames| ==> GoodFrame(frames[i]))
    && (forall i, j :: 0 <= i < j < |frames| ==> frames[i].vaddr + frames[i].size <= frames[j].vaddr)
  }

  // ----- regions tile the segment -----

  /** Regions one after the other from `s` to `e`. */
  predicate Tiled(rs: seq<Piece>, s: nat, e: nat) {
    if rs == [] then s == e
    else
      var r := rs[|rs| - 1];
      r.size >= 0 && r.addr + r.size == e && Tiled(rs[..|rs| - 1], s, r.addr)
  }

  predicate GoodRegion(r: Piece, first: bool) {
    && (!first || r.size == 0 ==> OnPage(r.addr))
    && (r.existing ==> r.size > 0 && GoodFrame(Frame(r.addr, r.size)))
  }

  predicate GoodRegions(rs: seq<Piece>) {
    forall i :: 0 <= i < |rs| ==> GoodRegion(rs[i], i == 0)
  }

  lemma {:induction false} TiledOrder(rs: seq<Piece>, s: nat, e: nat, i: nat)
    requires Tiled(rs, s, e) && i < |rs|
    ensures s <= rs[i].addr && rs[i].size >= 0 && rs[i].addr + rs[i].size <= e
    ensures i + 1 < |rs| ==> rs[i].addr + rs[i].size <= rs[|rs| - 1].addr
    decreases |rs|
  {
    var n := |rs| - 1;
    if i < n {
      TiledOrder(rs[..n], s, rs[n].addr, i);
    } else if n > 0 {
      TiledOrder(rs[..n], s, rs[n].addr, n - 1);
    }
  }

  /** Regions of a tiling lie one behind the other. */
  lemma {:induction false} TiledApart(rs: seq<Piece>, s: nat, e: nat, i: nat, j: nat)
    requires Tiled(rs, s, e) && i < j < |rs|
    ensures rs[i].size >= 0 && rs[i].addr + rs[i].size <= rs[j].addr
    decreases |rs|
  {
    var n := |rs| - 1;
    if j == n { TiledOrder(rs[..n], s, rs[n].addr, i); } else { TiledApart(rs[..n], s, rs[n].addr, i, j); }
  }

  /** In a tiling the search finds the one region that holds an address. */
  lemma {:induction false} SearchFinds(rs: seq<Piece>, lo: nat, hi: nat, v: nat, k: nat, s: int, e: int)
    requires Tiled(rs, lo, hi) && 0 <= s <= k <= e < |rs| && rs[k].addr <= v < rs[k].addr + rs[k].size
    ensures Search(rs, v, s, e) == Some(k)
    decreases e - s
  {
    var m := s + (e - s) / 2;
    if m < k {
      TiledApart(rs, lo, hi, m, k);
      SearchFinds(rs, lo, hi, v, k, m + 1, e);
    } else if m > k {
      TiledApart(rs, lo, hi, k, m);
      TiledOrder(rs, lo, hi, m);
      SearchFinds(rs, lo, hi, v, k, s, m - 1);
    }
  }

  predicate AllContained(seg: Segment, fs: seq<Frame>) {
    forall i :: 0 <= i < |fs| ==> Contained(seg, fs[i])
  }

  function LastEnd(seg: Segment, fs: seq<Frame>): nat {
    if fs == [] then seg.vaddr else fs[|fs| - 1].vaddr + fs[|fs| - 1].size
  }

  function AsPiece(f: Frame): Piece { Piece(f.vaddr, f.size, true) }

  /** The regions tile the segment, have one existing region for every frame, and end in what no frame has taken yet. */
  ghost predicate SplitBy(rs: seq<Piece>, seg: Segment, fs: seq<Frame>) {
    && rs != [] && Tiled(rs, seg.vaddr, End(seg)) && GoodRegions(rs)
    && (LastEnd(seg, fs) < End(seg) ==> rs[|rs| - 1] == Piece(LastEnd(seg, fs), End(seg) - LastEnd(seg, fs), false))
    && (forall i :: 0 <= i < |fs| ==> AsPiece(fs[i]) in rs)
    && (forall k :: 0 <= k < |rs| && rs[k].existing ==> Frame(rs[k].addr, rs[k].size) in fs)
  }

  /** The regions after the last one has been split around a frame. */
  function Around(rs: seq<Piece>, f: Frame, e: nat): seq<Piece>
    requires rs != []
  {
    var n := |rs| - 1;
    rs[..n] + [Piece(rs[n].addr, f.vaddr - rs[n].addr, rs[n].existing), AsPiece(f)]
    + if e != f.vaddr + f.size then [Piece(f.vaddr + f.size, e - f.vaddr - f.size, false)] else []
  }

  lemma {:induction false} SplitAtLast(rs: seq<Piece>, s: nat, e: nat, f: Frame)
    requires rs != [] && Tiled(rs, s, e) && rs[|rs| - 1].addr <= f.vaddr < e && f.size > 0
    ensures SplitAt(rs, f) == Some(Around(rs, f, e))
  {
    var n := |rs| - 1;
    SearchFinds(rs, s, e, f.vaddr, n, 0, n);
    assert rs[n := Piece(rs[n].addr, f.vaddr - rs[n].addr, rs[n].existing)] + [AsPiece(f)]
        == rs[..n] + [Piece(rs[n].addr, f.vaddr - rs[n].addr, rs[n].existing), AsPiece(f)];
  }

  lemma {:induction false} AroundTiles(rs: seq<Piece>, s: nat, e: nat, f: Frame)
    requires rs != [] && Tiled(rs, s, e) && rs[|rs| - 1].addr <= f.vaddr && f.vaddr + f.size <= e
    ensures Tiled(Around(rs, f, e), s, e)
  {
    var n := |rs| - 1;
    var c := Around(rs, f, e);
    assert c[..n] == rs[..n];
    assert c[..n + 1][..n] == rs[..n] && c[..n + 2][..n + 1] == c[..n + 1];
    assert Tiled(c[..n + 1], s, f.vaddr);
    assert Tiled(c[..n + 2], s, f.vaddr + f.size);
    if |c| == n + 2 { assert c[..n + 2] == c; }
  }

  lemma {:induction false} AroundGood(rs: seq<Piece>, e: nat, f: Frame)
    requires rs != [] && GoodRegions(rs) && !rs[|rs| - 1].existing && GoodFrame(f)
    ensures GoodRegions(Around(rs, f, e))
  {
    var n := |rs| - 1;
    var c := Around(rs, f, e);
    assert forall i :: 0 <= i < n ==> c[i] == rs[i];
    assert GoodRegion(rs[n], n == 0);
  }

  lemma {:induction false} AroundFrames(rs: seq<Piece>, seg: Segment, fs: seq<Frame>, f: Frame)
    requires SplitBy(rs, seg, fs) && !rs[|rs| - 1].existing
    ensures forall i :: 0 <= i < |fs + [f]| ==> AsPiece((fs + [f])[i]) in Around(rs, f, End(seg))
    ensures var c := Around(rs, f, End(seg));
            forall k :: 0 <= k < |c| && c[k].existing ==> Frame(c[k].addr, c[k].size) in fs + [f]
  {
    var n, c := |rs| - 1, Around(rs, f, End(seg));
    assert forall k :: 0 <= k < n ==> c[k] == rs[k];
    assert c[n + 1] == AsPiece(f);
    forall i | 0 <= i < |fs| ensures AsPiece(fs[i]) in c {
      var k :| 0 <= k < |rs| && rs[k] == AsPiece(fs[i]);
      assert c[k] == rs[k];
    }
  }

  lemma {:induction false} SplitAtKeeps(rs: seq<Piece>, seg: Segment, fs: seq<Frame>, f: Frame)
    requires SplitBy(rs, seg, fs) && GoodFrame(f) && Contained(seg, f) && LastEnd(seg, fs) <= f.vaddr
    ensures SplitAt(rs, f).Some? && SplitBy(SplitAt(rs, f).value, seg, fs + [f])
  {
    SplitAtLast(rs, seg.vaddr, End(seg), f);
    AroundTiles(rs, seg.vaddr, End(seg), f);
    AroundGood(rs, End(seg), f);
    AroundFrames(rs, seg, fs, f);
  }

  lemma {:induction false} SplitStart(seg: Segment)
    requires seg.memsz > 0
    ensures Split(seg, []).Some? && SplitBy(Split(seg, []).value, seg, [])
  {
    var rs := [Piece(seg.vaddr, seg.memsz, false)];
    assert rs[..0] == [];
    assert Tiled(rs[..0], seg.vaddr, seg.vaddr);
  }

  lemma {:induction false} FramesPrefix(seg: Segment, fs: seq<Frame>)
    requires fs != [] && GoodFrames(fs) && AllContained(seg, fs)
    ensures GoodFrames(fs[..|fs| - 1]) && AllContained(seg, fs[..|fs| - 1])
    ensures LastEnd(seg, fs[..|fs| - 1]) <= fs[|fs| - 1].vaddr
    ensures GoodFrame(fs[|fs| - 1]) && Contained(seg, fs[|fs| - 1])
  {
    assert Contained(seg, fs[|fs| - 1]);
  }

  lemma {:induction false} SplitLast(seg: Segment, fs: seq<Frame>, f: Frame)
    requires Split(seg, fs).Some? && SplitBy(Split(seg, fs).value, seg, fs)
    requires GoodFrame(f) && Contained(seg, f) && LastEnd(seg, fs) <= f.vaddr
    ensures Split(seg, fs + [f]).Some? && SplitBy(Split(seg, fs + [f]).value, seg, fs + [f])
  {
    SplitAtKeeps(Split(seg, fs).value, seg, fs, f);
    assert (fs + [f])[..|fs|] == fs;
  }

  lemma {:induction false} SplitExact(seg: Segment, fs: seq<Frame>)
    requires seg.memsz > 0 && GoodFrames(fs) && AllContained(seg, fs)
    ensures Split(seg, fs).Some? && SplitBy(Split(seg, fs).value, seg, fs)
    decreases |fs|
  {
    if fs == [] {
      SplitStart(seg);
    } else {
      var n := |fs| - 1;
      FramesPrefix(seg, fs);
      SplitExact(seg, fs[..n]);
      SplitLast(seg, fs[..n], fs[n]);
      assert fs[..n] + [fs[n]] == fs;
    }
  }

  // ----- pages tile the segment, rounded to whole pages -----

  predicate GoodPage(p: Page) {
    p.size > 0 && OnPage(p.vaddr) && OnPage(p.size)
  }

  /** Pages one after the other from `s` to `e`. */
  predicate PagesTile(ps: seq<Page>, s: nat, e: nat) {
    if ps == [] then s == e
    else ps[0].vaddr == s && GoodPage(ps[0]) && PagesTile(ps[1..], s + ps[0].size, e)
  }

  lemma {:induction false} PagesTileAppend(a: seq<Page>, b: seq<Page>, s: nat, m: nat, e: nat)
    requires PagesTile(a, s, m) && PagesTile(b, m, e)
    ensures PagesTile(a + b, s, e)
    decreases |a|
  {
    if a == [] {
      assert a + b == b;
    } else {
      assert (a + b)[1..] == a[1..] + b;
      PagesTileAppend(a[1..], b, s + a[0].size, m, e);
    }
  }

  predicate FillsFor(ps: seq<Page>, seg: Segment) {
    forall i :: 0 <= i < |ps| ==> ps[i].fill == FillFor(ps[i].vaddr, ps[i].size, seg)
  }

  lemma {:induction false} UpFixed(n: nat)
    ensures OnPage(Down(n)) && OnPage(Up(n)) && Down(n) <= n <= Up(n) && n - Down(n) < PAGE_SIZE
            && Up(n) - n < PAGE_SIZE
    ensures OnPage(n) ==> Down(n) == n && Up(n) == n
  {
  }

  lemma {:induction false} PickOnPage(sizes: seq<nat>, v: nat, remain: int)
    requires GoodSizes(sizes)
    ensures var p := Pick(sizes, v, remain); p > 0 && OnPage(p) && (p == PAGE_SIZE || remain >= p)
  {
    PickFits(sizes, v, remain);
  }

  lemma {:induction false} NextPage(v: nat, e: nat, size: nat)
    requires OnPage(v) && v < e && OnPage(size) && size > 0 && (size == PAGE_SIZE || e - v >= size)
    ensures OnPage(v + size) && v + size <= Up(e)
  {
    UpFixed(e);
  }

  lemma {:induction false} PromoteTiles(sizes: seq<nat>, v: nat, e: nat, seg: Segment)
    requires GoodSizes(sizes) && OnPage(v) && v <= Up(e)
    ensures PagesTile(Promote(sizes, v, e, seg), v, Up(e)) && FillsFor(Promote(sizes, v, e, seg), seg)
    decreases Up(e) - v
  {
    UpFixed(e);
    if v < e {
      var size := Pick(sizes, v, e - v);
      PickOnPage(sizes, v, e - v);
      NextPage(v, e, size);
      PromoteTiles(sizes, v + size, e, seg);
      assert Promote(sizes, v, e, seg)[1..] == Promote(sizes, v + size, e, seg);
    }
  }

  lemma {:induction false} OnePage(v: nat, size: nat, seg: Segment)
    requires GoodFrame(Frame(v, size))
    ensures PagesTile([Page(v, size, FillFor(v, size, seg))], v, v + size)
            && FillsFor([Page(v, size, FillFor(v, size, seg))], seg)
    ensures Down(v) == v && Up(v + size) == v + size
  {
    UpFixed(v);
    UpFixed(v + size);
    assert [Page(v, size, FillFor(v, size, seg))][1..] == [];
  }

  lemma {:induction false} RegionPagesTile(sizes: seq<nat>, r: Piece, seg: Segment, first: bool)
    requires GoodSizes(sizes) && r.size >= 0 && GoodRegion(r, first)
    ensures PagesTile(RegionPages(sizes, r, seg), Down(r.addr), Up(r.addr + r.size))
            && FillsFor(RegionPages(sizes, r, seg), seg)
  {
    UpFixed(r.addr);
    UpFixed(r.addr + r.size);
    if r.existing {
      OnePage(r.addr, r.size, seg);
    } else {
      PromoteTiles(sizes, Down(r.addr), r.addr + r.size, seg);
    }
  }

  lemma {:induction false} AllPagesTile(sizes: seq<nat>, rs: seq<Piece>, s: nat, e: nat, seg: Segment)
    requires GoodSizes(sizes) && rs != [] && Tiled(rs, s, e) && GoodRegions(rs)
    ensures PagesTile(AllPages(sizes, rs, seg), Down(s), Up(e)) && FillsFor(AllPages(sizes, rs, seg), seg)
    decreases |rs|
  {
    var n := |rs| - 1;
    var r := rs[n];
    var ps := RegionPages(sizes, r, seg);
    assert GoodRegion(r, n == 0);
    RegionPagesTile(sizes, r, seg, n == 0);
    if n == 0 {
      assert rs[..n] == [];
      assert s == r.addr;
      assert AllPages(sizes, rs, seg) == ps;
    } else {
      AllPagesTile(sizes, rs[..n], s, r.addr, seg);
      AppendPages(AllPages(sizes, rs[..n], seg), ps, s, r.addr, e, seg);
    }
  }

  lemma {:induction false} AppendPages(a: seq<Page>, b: seq<Page>, s: nat, m: nat, e: nat, seg: Segment)
    requires OnPage(m) && PagesTile(a, Down(s), Up(m)) && PagesTile(b, Down(m), Up(e)) && FillsFor(a, seg)
             && FillsFor(b, seg)
    ensures PagesTile(a + b, Down(s), Up(e)) && FillsFor(a + b, seg)
  {
    UpFixed(m);
    PagesTileAppend(a, b, Down(s), m, Up(e));
  }

  // ----- every page is aligned to its size, and every frame has its page -----

  predicate PagesAligned(ps: seq<Page>) {
    forall i :: 0 <= i < |ps| ==> ps[i].size > 0 && ps[i].vaddr % ps[i].size == 0
  }

  lemma {:induction false} PickAligned(sizes: seq<nat>, v: nat, remain: int, rest: seq<Page>, fill: Fill)
    requires OnPage(v) && PagesAligned(rest)
    ensures PagesAligned([Page(v, Pick(sizes, v, remain), fill)] + rest)
  {
    PickFits(sizes, v, remain);
  }

  lemma {:induction false} PromoteAligned(sizes: seq<nat>, v: nat, e: int, seg: Segment)
    requires GoodSizes(sizes) && OnPage(v)
    ensures PagesAligned(Promote(sizes, v, e, seg))
    decreases e - v
  {
    if v < e {
      var size := Pick(sizes, v, e - v);
      PickOnPage(sizes, v, e - v);
      PromoteAligned(sizes, v + size, e, seg);
      PickAligned(sizes, v, e - v, Promote(sizes, v + size, e, seg), FillFor(v, size, seg));
    }
  }

  predicate RegionsAligned(rs: seq<Piece>) {
    forall i :: 0 <= i < |rs| && rs[i].existing ==> rs[i].size > 0 && rs[i].addr % rs[i].size == 0
  }

  lemma {:induction false} AllPagesAligned(sizes: seq<nat>, rs: seq<Piece>, seg: Segment)
    requires GoodSizes(sizes) && RegionsAligned(rs)
    ensures PagesAligned(AllPages(sizes, rs, seg))
    ensures forall i :: 0 <= i < |rs| && rs[i].existing ==> PageAt(AllPages(sizes, rs, seg), rs[i].addr, rs[i].size)
    decreases |rs|
  {
    if rs != [] {
      var n := |rs| - 1;
      var r := rs[n];
      AllPagesAligned(sizes, rs[..n], seg);
      if !r.existing {
        UpFixed(r.addr);
        PromoteAligned(sizes, Down(r.addr), r.addr + r.size, seg);
      }
      var a, b := AllPages(sizes, rs[..n], seg), RegionPages(sizes, r, seg);
      AppendAligned(a, b);
      forall i | 0 <= i < |rs| && rs[i].existing ensures PageAt(a + b, rs[i].addr, rs[i].size) {
        if i < n {
          assert rs[..n][i] == rs[i];
        } else {
          assert PageAt(b, r.addr, r.size) by { assert b[0].vaddr == r.addr && b[0].size == r.size; }
        }
        PageAtAppend(a, b, rs[i].addr, rs[i].size);
      }
    }
  }

  lemma {:induction false} PageAtAppend(a: seq<Page>, b: seq<Page>, v: nat, size: int)
    requires PageAt(a, v, size) || PageAt(b, v, size)
    ensures PageAt(a + b, v, size)
  {
    if k :| 0 <= k < |a| && a[k].vaddr == v && a[k].size == size {
      assert (a + b)[k] == a[k];
    } else {
      var k :| 0 <= k < |b| && b[k].vaddr == v && b[k].size == size;
      assert (a + b)[|a| + k] == b[k];
    }
  }

  ghost predicate PageAt(ps: seq<Page>, v: nat, size: int) {
    exists k :: 0 <= k < |ps| && ps[k].vaddr == v && ps[k].size == size
  }

  lemma {:induction false} AppendAligned(a: seq<Page>, b: seq<Page>)
    requires PagesAligned(a) && PagesAligned(b)
    ensures PagesAligned(a + b)
  {
  }

  // ----- which frames are taken -----

  /** A frame is usable for a segment if it lies inside it, at or after its end, or strictly before its start. */
  predicate Placed(seg: Segment, f: Frame) {
    f.vaddr >= End(seg) || f.vaddr + f.size < seg.vaddr || Contained(seg, f)
  }

  predicate Relevant(seg: Segment, f: Frame) {
    Contained(seg, f) && f.vaddr < End(seg)
  }

  ghost predicate AllPlaced(seg: Segment, frames: seq<Frame>) {
    forall i :: 0 <= i < |frames| ==> Placed(seg, frames[i])
  }

  /** `fs` are the frames inside the segment. */
  ghost predicate Taken(seg: Segment, frames: seq<Frame>, fs: seq<Frame>) {
    && GoodFrames(fs) && AllContained(seg, fs)
    && (forall f :: f in fs <==> f in frames && Relevant(seg, f))
  }

  lemma {:induction false} RegionsExact(seg: Segment, frames: seq<Frame>)
    requires GoodFrames(frames)
    ensures RegionsInSegment(seg, frames).Some? <==> AllPlaced(seg, frames)
    ensures RegionsInSegment(seg, frames).Some? ==> Taken(seg, frames, RegionsInSegment(seg, frames).value)
    decreases |frames|
  {
    if frames != [] {
      var n := |frames| - 1;
      var f := frames[n];
      var before := frames[..n];
      assert frames == before + [f];
      assert GoodFrames(before);
      RegionsExact(seg, before);
      assert AllPlaced(seg, frames) <==> AllPlaced(seg, before) && Placed(seg, f);
      if RegionsInSegment(seg, before).Some? {
        OneMoreTaken(seg, before, RegionsInSegment(seg, before).value, f);
      }
    }
  }

  lemma {:induction false} OneMoreTaken(seg: Segment, frames: seq<Frame>, fs: seq<Frame>, f: Frame)
    requires GoodFrames(frames + [f]) && Taken(seg, frames, fs)
    ensures Relevant(seg, f) ==> Taken(seg, frames + [f], fs + [f])
    ensures !Relevant(seg, f) ==> Taken(seg, frames + [f], fs)
  {
    var gs := frames + [f];
    assert gs[|frames|] == f;
    if fs != [] {
      assert fs[|fs| - 1] in frames;
      var k :| 0 <= k < |frames| && frames[k] == fs[|fs| - 1];
      assert gs[k].vaddr + gs[k].size <= gs[|frames|].vaddr;
    }
    OneMoreFrame(seg, fs, f);
  }

  lemma {:induction false} OneMoreFrame(seg: Segment, fs: seq<Frame>, f: Frame)
    requires GoodFrames(fs) && GoodFrame(f) && (fs != [] ==> LastEnd(seg, fs) <= f.vaddr)
    ensures GoodFrames(fs + [f])
  {
    var gs := fs + [f];
    forall i, j | 0 <= i < j < |gs| ensures gs[i].vaddr + gs[i].size <= gs[j].vaddr {
      if j == |fs| && i < j - 1 { assert fs[i].vaddr + fs[i].size <= fs[|fs| - 1].vaddr; }
    }
  }

  // ----- the bytes -----

  /** The fill of a page writes address `a`. */
  predicate Writes(p: Page, a: nat) {
    p.fill.Data? && p.vaddr + p.fill.dest <= a < p.vaddr + p.fill.dest + p.fill.len
  }

  predicate Maps(p: Page, a: nat) {
    p.vaddr <= a < p.vaddr + p.size
  }

  predicate FromFile(seg: Segment, a: nat) {
    seg.vaddr <= a < seg.vaddr + seg.filesz
  }

  lemma {:induction false} FillExact(p: Page, seg: Segment, a: nat)
    requires p.fill == FillFor(p.vaddr, p.size, seg) && p.size > 0 && seg.vaddr < p.vaddr + p.size
    ensures !p.fill.Fails?
    ensures Writes(p, a) <==> Maps(p, a) && FromFile(seg, a)
    ensures Writes(p, a) ==> p.fill.src + (a - p.vaddr - p.fill.dest) == seg.offset + (a - seg.vaddr)
  {
  }

  /** The assertion fails if and only if the page ends before the segment; nothing is filled past the file's bytes. */
  lemma {:induction false} FillFailsIff(v: nat, size: nat, seg: Segment)
    requires size > 0
    ensures FillFor(v, size, seg).Fails? <==> v + size <= seg.vaddr
    ensures FillFor(v, size, seg) == Nothing <==>
            v + size > seg.vaddr && (seg.filesz == 0 || seg.vaddr + seg.filesz <= v)
  {
  }

  /** What the loaded program finds at an address: frames start out zeroed and the fills are copied in. */
  function Memory(ps: seq<Page>, file: nat -> int, a: nat): Option<int> {
    if ps == [] then None
    else if Maps(ps[0], a) then
      Some(if Writes(ps[0], a) then file(ps[0].fill.src + (a - ps[0].vaddr - ps[0].fill.dest)) else 0)
    else Memory(ps[1..], file, a)
  }

  /** The image a loadable segment stands for: the file's bytes first, zeros after them. */
  function Image(seg: Segment, file: nat -> int, a: nat): Option<int> {
    if !(Down(seg.vaddr) <= a < Up(End(seg))) then None
    else if FromFile(seg, a) then Some(file(seg.offset + (a - seg.vaddr)))
    else Some(0)
  }

  lemma {:induction false} TilesDisjoint(ps: seq<Page>, s: nat, e: nat)
    requires PagesTile(ps, s, e)
    ensures s <= e && forall i :: 0 <= i < |ps| ==> s <= ps[i].vaddr && ps[i].vaddr + ps[i].size <= e
    ensures forall i, j :: 0 <= i < j < |ps| ==> ps[i].vaddr + ps[i].size <= ps[j].vaddr
    decreases |ps|
  {
    if ps != [] {
      TilesDisjoint(ps[1..], s + ps[0].size, e);
      assert ps == [ps[0]] + ps[1..];
    }
  }

  lemma {:induction false} MemoryExact(ps: seq<Page>, s: nat, e: nat, seg: Segment, file: nat -> int, a: nat)
    requires PagesTile(ps, s, e) && FillsFor(ps, seg) && seg.vaddr < s + PAGE_SIZE
    ensures Memory(ps, file, a)
         == if !(s <= a < e) then None
            else if FromFile(seg, a) then Some(file(seg.offset + (a - seg.vaddr)))
            else Some(0)
    ensures forall i :: 0 <= i < |ps| ==> !ps[i].fill.Fails?
    decreases |ps|
  {
    if ps != [] {
      FillExact(ps[0], seg, a);
      TilesDisjoint(ps, s, e);
      var next := s + ps[0].size;
      MemoryExact(ps[1..], next, e, seg, file, a);
      assert ps == [ps[0]] + ps[1..];
    }
  }

  /** No address is written by two fills. */
  ghost predicate WrittenOnce(ps: seq<Page>) {
    forall i, j, a :: 0 <= i < j < |ps| && Writes(ps[i], a) ==> !Writes(ps[j], a)
  }

  /**
   Loading one segment. The pages exist if and only if no frame straddles the segment's ends or stops exactly at its
   start; they then tile the segment rounded to whole pages, each aligned to its size, with every frame
   inside the segment among them; no assertion fails; no address is written twice; and memory holds exactly the image.
   */
  lemma {:induction false} SegmentLoaded(sizes: seq<nat>, seg: Segment, frames: seq<Frame>, file: nat -> int)
    requires GoodSizes(sizes) && seg.memsz > 0 && GoodFrames(frames) && FramesAligned(frames)
    ensures GetPages(sizes, seg, frames).Some? <==> AllPlaced(seg, frames)
    ensures GetPages(sizes, seg, frames).Some? ==>
              var ps := GetPages(sizes, seg, frames).value;
              && PagesTile(ps, Down(seg.vaddr), Up(End(seg))) && PagesAligned(ps)
              && (forall i :: 0 <= i < |frames| && Relevant(seg, frames[i]) ==>
                      PageAt(ps, frames[i].vaddr, frames[i].size))
              && (forall i :: 0 <= i < |ps| ==> !ps[i].fill.Fails?)
              && WrittenOnce(ps)
              && (forall a: nat :: Memory(ps, file, a) == Image(seg, file, a))
  {
    RegionsExact(seg, frames);
    if RegionsInSegment(seg, frames).Some? {
      var fs := RegionsInSegment(seg, frames).value;
      SplitExact(seg, fs);
      PagesLoaded(sizes, seg, fs, Split(seg, fs).value, frames, file);
    }
  }

  lemma {:induction false} PagesLoaded(sizes: seq<nat>, seg: Segment, fs: seq<Frame>, rs: seq<Piece>,
                                       frames: seq<Frame>, file: nat -> int)
    requires GoodSizes(sizes) && SplitBy(rs, seg, fs) && FramesAligned(frames)
    requires forall f :: f in fs <==> f in frames && Relevant(seg, f)
    ensures var ps := AllPages(sizes, rs, seg);
            && PagesTile(ps, Down(seg.vaddr), Up(End(seg))) && PagesAligned(ps)
            && (forall i :: 0 <= i < |frames| && Relevant(seg, frames[i]) ==>
                    PageAt(ps, frames[i].vaddr, frames[i].size))
            && (forall i :: 0 <= i < |ps| ==> !ps[i].fill.Fails?)
            && WrittenOnce(ps)
            && (forall a: nat :: Memory(ps, file, a) == Image(seg, file, a))
  {
    var ps := AllPages(sizes, rs, seg);
    AllPagesTile(sizes, rs, seg.vaddr, End(seg), seg);
    ExistingAligned(rs, seg, fs, frames);
    AllPagesAligned(sizes, rs, seg);
    forall i | 0 <= i < |frames| && Relevant(seg, frames[i]) ensures PageAt(ps, frames[i].vaddr, frames[i].size) {
      assert frames[i] in fs;
      var k :| 0 <= k < |fs| && fs[k] == frames[i];
      assert AsPiece(fs[k]) in rs;
    }
    TilesWrittenOnce(ps, seg);
    UpFixed(seg.vaddr);
    forall a: nat ensures Memory(ps, file, a) == Image(seg, file, a) {
      MemoryExact(ps, Down(seg.vaddr), Up(End(seg)), seg, file, a);
    }
    MemoryExact(ps, Down(seg.vaddr), Up(End(seg)), seg, file, 0);
  }

  lemma {:induction false} ExistingAligned(rs: seq<Piece>, seg: Segment, fs: seq<Frame>, frames: seq<Frame>)
    requires SplitBy(rs, seg, fs) && FramesAligned(frames) && forall f :: f in fs ==> f in frames
    ensures RegionsAligned(rs)
  {
    forall i | 0 <= i < |rs| && rs[i].existing ensures rs[i].size > 0 && rs[i].addr % rs[i].size == 0 {
      assert GoodRegion(rs[i], i == 0);
      assert Frame(rs[i].addr, rs[i].size) in frames;
    }
  }

  lemma {:induction false} TilesWrittenOnce(ps: seq<Page>, seg: Segment)
    requires PagesTile(ps, Down(seg.vaddr), Up(End(seg))) && FillsFor(ps, seg)
    ensures WrittenOnce(ps)
  {
    UpFixed(seg.vaddr);
    TilesDisjoint(ps, Down(seg.vaddr), Up(End(seg)));
    forall i, j, a | 0 <= i < j < |ps| && Writes(ps[i], a) ensures !Writes(ps[j], a) {
      assert ps[i].vaddr + ps[i].size <= ps[j].vaddr;
    }
  }

  /** All of the file's part is loaded if and only if it does not go past the last page of the segment. */
  lemma {:induction false} FileLoadedIff(sizes: seq<nat>, seg: Segment, frames: seq<Frame>, file: nat -> int)
    requires GoodSizes(sizes) && seg.memsz > 0 && GoodFrames(frames) && FramesAligned(frames) && AllPlaced(seg, frames)
    ensures GetPages(sizes, seg, frames).Some?
    ensures var ps := GetPages(sizes, seg, frames).value;
            (forall a: nat :: FromFile(seg, a) ==> Memory(ps, file, a) == Some(file(seg.offset + (a - seg.vaddr))))
            <==> seg.vaddr + seg.filesz <= Up(End(seg))
  {
    SegmentLoaded(sizes, seg, frames, file);
    ImageComplete(seg, file, GetPages(sizes, seg, frames).value);
  }

  lemma {:induction false} ImageComplete(seg: Segment, file: nat -> int, ps: seq<Page>)
    requires forall a: nat :: Memory(ps, file, a) == Image(seg, file, a)
    ensures (forall a: nat :: FromFile(seg, a) ==> Memory(ps, file, a) == Some(file(seg.offset + (a - seg.vaddr))))
            <==> seg.vaddr + seg.filesz <= Up(End(seg))
  {
    UpFixed(seg.vaddr);
    UpFixed(End(seg));
    assert Memory(ps, file, Up(End(seg))) == Image(seg, file, Up(End(seg)));
    forall a: nat | FromFile(seg, a) && seg.vaddr + seg.filesz <= Up(End(seg))
      ensures Memory(ps, file, a) == Some(file(seg.offset + (a - seg.vaddr)))
    {
      assert Memory(ps, file, a) == Image(seg, file, a);
    }
  }

  /** One byte of memory for 5000 bytes of file: the second page is not there. */
  lemma {:induction false} LongFileCutOff(sizes: seq<nat>, file: nat -> int)
    requires GoodSizes(sizes)
    ensures var seg := Segment(0, 1, 5000, 0);
            && FromFile(seg, 4096) && GetPages(sizes, seg, []).Some?
            && Memory(GetPages(sizes, seg, []).value, file, 4096) == None
  {
    var seg := Segment(0, 1, 5000, 0);
    SegmentLoaded(sizes, seg, [], file);
    assert Up(End(seg)) == 4096;
    assert Memory(GetPages(sizes, seg, []).value, file, 4096) == Image(seg, file, 4096);
  }

  /** A frame that stops exactly where the segment starts does not overlap it, and is refused all the same. */
  lemma {:induction false} AdjoiningFrameRefused(sizes: seq<nat>)
    ensures var seg, f := Segment(8192, 4096, 0, 0), Frame(4096, 4096);
            GoodFrames([f]) && FramesAligned([f]) && f.vaddr + f.size <= seg.vaddr && GetPages(sizes, seg, [f]).None?
  {
    assert [Frame(4096, 4096)][..0] == [];
  }

  // ----- the imperative forms -----

  method BinarySearch(rs: seq<Piece>, v: nat) returns (r: Option<nat>)
    ensures r == Search(rs, v, 0, |rs| - 1)
  {
    var s, e := 0, |rs| - 1;
    while s <= e
      invariant 0 <= s && e < |rs| && Search(rs, v, s, e) == Search(rs, v, 0, |rs| - 1)
      decreases e - s
    {
      var m := s + (e - s) / 2;
      var lower, upper := rs[m].addr, rs[m].addr + rs[m].size;
      if lower <= v && v < upper {
        return Some(m);
      } else if v >= upper {
        s := m + 1;
      } else {
        e := m - 1;
      }
    }
    return None;
  }

  lemma {:induction false} SplitStuck(seg: Segment, fs: seq<Frame>, k: nat)
    requires k <= |fs| && Split(seg, fs[..k]).None?
    ensures Split(seg, fs).None?
    decreases |fs| - k
  {
    if k == |fs| {
      assert fs[..k] == fs;
    } else {
      assert fs[..k + 1][..k] == fs[..k];
      SplitStuck(seg, fs, k + 1);
    }
  }

  /** One region is found, shrunk, and up to two are appended. */
  method SplitOnce(regions: seq<Piece>, f: Frame) returns (r: Option<seq<Piece>>)
    ensures r == SplitAt(regions, f)
  {
    var found := BinarySearch(regions, f.vaddr);
    if found.None? { return None; }
    var m := found.value;
    var size := regions[m].size;
    var before := f.vaddr - regions[m].addr;
    var shrunk := regions[m := Piece(regions[m].addr, before, regions[m].existing)];
    var rs := shrunk;
    if f.size != 0 { rs := rs + [Piece(f.vaddr, f.size, true)]; }
    ghost var with := rs;
    if size - before - f.size != 0 { rs := rs + [Piece(f.vaddr + f.size, size - before - f.size, false)]; }
    assert shrunk + [] == shrunk && with + [] == with;
    return Some(rs);
  }

  /** The loop over the existing frames. */
  method SplitSegment(seg: Segment, fs: seq<Frame>) returns (r: Option<seq<Piece>>)
    ensures r == Split(seg, fs)
  {
    var rs := [Piece(seg.vaddr, seg.memsz, false)];
    for k := 0 to |fs|
      invariant Split(seg, fs[..k]) == Some(rs)
    {
      assert fs[..k + 1][..k] == fs[..k];
      var next := SplitOnce(rs, fs[k]);
      if next.None? {
        SplitStuck(seg, fs, k + 1);
        return None;
      }
      rs := next.value;
    }
    assert fs[..|fs|] == fs;
    return Some(rs);
  }

  method PickSize(sizes: seq<nat>, v: nat, remain: int) returns (size: nat)
    ensures size == Pick(sizes, v, remain)
  {
    for i := 0 to |sizes|
      invariant Pick(sizes[i..], v, remain) == Pick(sizes, v, remain)
    {
      if sizes[i] > 0 && remain >= sizes[i] && v % sizes[i] == 0 { return sizes[i]; }
    }
    return PAGE_SIZE;
  }

  lemma {:induction false} PromoteStep(sizes: seq<nat>, v: nat, e: int, seg: Segment)
    requires v < e
    ensures var size := Pick(sizes, v, e - v);
            && size > 0
            && Promote(sizes, v, e, seg) == [Page(v, size, FillFor(v, size, seg))] + Promote(sizes, v + size, e, seg)
  {
    PickFits(sizes, v, e - v);
  }

  /** The loop that promotes a range to pages as large as possible. */
  method PromoteRange(sizes: seq<nat>, r: Piece, seg: Segment) returns (ps: seq<Page>)
    ensures ps == Promote(sizes, Down(r.addr), r.addr + r.size, seg)
  {
    var v := Down(r.addr);
    var e := r.addr + r.size;
    var remain := e - v;
    ps := [];
    while v < e
      invariant remain == e - v
      invariant ps + Promote(sizes, v, e, seg) == Promote(sizes, Down(r.addr), e, seg)
      decreases e - v
    {
      var size := PickSize(sizes, v, remain);
      PromoteStep(sizes, v, e, seg);
      ps := ps + [Page(v, size, FillFor(v, size, seg))];
      v := v + size;
      remain := remain - size;
    }
  }

  lemma {:induction false} RegionsStuck(seg: Segment, frames: seq<Frame>, k: nat)
    requires k <= |frames| && RegionsInSegment(seg, frames[..k]).None?
    ensures RegionsInSegment(seg, frames).None?
    decreases |frames| - k
  {
    if k == |frames| {
      assert frames[..k] == frames;
    } else {
      assert frames[..k + 1][..k] == frames[..k];
      RegionsStuck(seg, frames, k + 1);
    }
  }

  method CollectRegions(seg: Segment, frames: seq<Frame>) returns (r: Option<seq<Frame>>)
    ensures r == RegionsInSegment(seg, frames)
  {
    var fs := [];
    for k := 0 to |frames|
      invariant RegionsInSegment(seg, frames[..k]) == Some(fs)
    {
      var f := frames[k];
      assert frames[..k + 1][..k] == frames[..k] && frames[..k + 1][k] == f;
      if !(f.vaddr >= End(seg) || f.vaddr + f.size < seg.vaddr) {
        if !Contained(seg, f) {
          RegionsStuck(seg, frames, k + 1);
          return None;
        }
        fs := fs + [f];
      }
    }
    assert frames[..|frames|] == frames;
    return Some(fs);
  }

  /** The body of `get_pages` for one loadable segment. */
  method LoadSegment(sizes: seq<nat>, seg: Segment, frames: seq<Frame>) returns (r: Option<seq<Page>>)
    ensures r == GetPages(sizes, seg, frames)
  {
    if seg.memsz == 0 { return Some([]); }
    var fs := CollectRegions(seg, frames);
    if fs.None? { return None; }
    var regions := SplitSegment(seg, fs.value);
    if regions.None? { return None; }
    var rs, pages := regions.value, [];
    for k := 0 to |rs|
      invariant pages == AllPages(sizes, rs[..k], seg)
    {
      assert rs[..k + 1][..k] == rs[..k];
      if rs[k].existing {
        pages := pages + RegionPages(sizes, rs[k], seg);
      } else {
        var more := PromoteRange(sizes, rs[k], seg);
        pages := pages + more;
      }
    }
    assert rs[..|rs|] == rs;
    return Some(pages);
  }

  /** `fill_frame_with_filedata`: copy part of a file into a frame. */
  method FillFrame(frame: array<int>, file: seq<int>, fill: Fill)
    requires fill.Data? && fill.dest + fill.len <= frame.Length && fill.src + fill.len <= |file|
    modifies frame
    ensures forall i :: 0 <= i < frame.Length ==>
              frame[i] == if fill.dest <= i < fill.dest + fill.len then file[fill.src + (i - fill.dest)]
                  else old(frame[i])
  {
    for k := 0 to fill.len
      invariant forall i :: 0 <= i < frame.Length ==>
                  frame[i] == if fill.dest <= i < fill.dest + k then file[fill.src + (i - fill.dest)] else old(frame[i])
    {
      frame[fill.dest + k] := file[fill.src + k];
    }
  }
}
