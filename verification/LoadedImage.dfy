/**
 An ELF segment from file to virtual memory: its pages are built into page tables, the frames are
 filled from the file, the loader walks the tables, and the image appears at its addresses.
 */
module LoadedImage {
  import opened Wrappers
  import opened Arithmetic
  import opened Physical
  import opened PageTables
  import opened AddressSpace
  import E = Elf

  // ----- frames -----

  /** The file as a function of the offset. */
  function At(file: seq<int>, i: int): int { if 0 <= i < |file| then file[i] else 0 }

  /** What a zeroed frame holds after the fill of its page. */
  function Contents(p: E.Page, file: nat -> int): (c: seq<int>)
    ensures |c| == p.size
    ensures forall i :: 0 <= i < p.size ==> c[i] == ByteOf(p, file, i)
  {
    seq(p.size, i requires 0 <= i => ByteOf(p, file, i))
  }

  function ByteOf(p: E.Page, file: nat -> int, i: nat): int {
    if p.fill.Data? && p.fill.dest <= i < p.fill.dest + p.fill.len then file(p.fill.src + (i - p.fill.dest)) else 0
  }

  /** The loader zeroes a frame and copies the fill into it. */
  method LoadFrame(p: E.Page, file: seq<int>) returns (frame: array<int>)
    requires p.fill.Data? ==> p.fill.dest + p.fill.len <= p.size && p.fill.src + p.fill.len <= |file|
    ensures frame[..] == Contents(p, i => At(file, i))
  {
    frame := new int[p.size](_ => 0);
    if p.fill.Data? { E.FillFrame(frame, file, p.fill); }
    assert forall i :: 0 <= i < p.size ==> frame[i] == ByteOf(p, i => At(file, i), i);
  }

  /** The pages of a segment as the page tables see them: page `k` has frame `k`. */
  function Mapped(ps: seq<E.Page>): (r: seq<Page>)
    ensures |r| == |ps| && forall k: nat :: k < |ps| ==> r[k] == Page(ps[k].vaddr, ps[k].size, Some(k))
  {
    seq(|ps|, k requires 0 <= k < |ps| => Page(ps[k].vaddr, ps[k].size, Some(k)))
  }

  // ----- virtual memory -----

  predicate Hits(m: Mapping, ps: seq<E.Page>, a: nat) {
    m.frame < |ps| && m.vaddr <= a < m.vaddr + ps[m.frame].size
  }

  /** The byte found at an address through the mappings made. */
  function ByteAt(ms: seq<Mapping>, ps: seq<E.Page>, file: nat -> int, a: nat): Option<int> {
    if ms == [] then None
    else if Hits(ms[0], ps, a) then Some(Contents(ps[ms[0].frame], file)[a - ms[0].vaddr])
    else ByteAt(ms[1..], ps, file, a)
  }

  lemma {:induction false} ByteAtFound(ms: seq<Mapping>, ps: seq<E.Page>, file: nat -> int, a: nat)
    ensures if ByteAt(ms, ps, file, a).None? then forall m :: m in ms ==> !Hits(m, ps, a)
            else exists m :: m in ms && Hits(m, ps, a)
                     && ByteAt(ms, ps, file, a) == Some(Contents(ps[m.frame], file)[a - m.vaddr])
    decreases |ms|
  {
    if ms != [] {
      assert ms == [ms[0]] + ms[1..];
      if Hits(ms[0], ps, a) { assert ms[0] in ms; } else { ByteAtFound(ms[1..], ps, file, a); }
    }
  }

  /** `Memory` at an address in page `k`, and outside all pages. */
  lemma {:induction false} MemoryAt(ps: seq<E.Page>, s: nat, e: nat, file: nat -> int, a: nat)
    requires E.PagesTile(ps, s, e)
    ensures forall k: nat :: k < |ps| && E.Maps(ps[k], a) ==>
                E.Memory(ps, file, a) == Some(ByteOf(ps[k], file, a - ps[k].vaddr))
    ensures (forall k: nat :: k < |ps| ==> !E.Maps(ps[k], a)) ==> E.Memory(ps, file, a) == None
    decreases |ps|
  {
    if ps != [] {
      E.TilesDisjoint(ps, s, e);
      MemoryAt(ps[1..], s + ps[0].size, e, file, a);
      assert forall k :: 0 < k < |ps| ==> ps[1..][k - 1] == ps[k];
    }
  }

  /** Any mappings that are exactly those of the pages show the memory of the pages. */
  lemma {:induction false} MappingsShowMemory(ms: seq<Mapping>, ps: seq<E.Page>, s: nat, e: nat, file: nat -> int,
                                              a: nat)
    requires E.PagesTile(ps, s, e)
    requires AllMapped(Mapped(ps), ms)
    ensures ByteAt(ms, ps, file, a) == E.Memory(ps, file, a)
  {
    ByteAtFound(ms, ps, file, a);
    MemoryAt(ps, s, e, file, a);
    if ByteAt(ms, ps, file, a).None? {
      forall k: nat | k < |ps| ensures !E.Maps(ps[k], a) {
        var m := Mapping(ps[k].vaddr, k);
        assert IsMapping(Mapped(ps)[k], m);
        assert m in ms && !Hits(m, ps, a);
      }
    } else {
      var m :| m in ms && Hits(m, ps, a) && ByteAt(ms, ps, file, a) == Some(Contents(ps[m.frame], file)[a - m.vaddr]);
      var k :| 0 <= k < |ps| && IsMapping(Mapped(ps)[k], m);
      assert m == Mapping(ps[k].vaddr, k) && E.Maps(ps[k], a);
    }
  }

  // ----- pages fit the page tables -----

  /** A page size that every level can hold, and that the root does not hold itself if there are four levels. */
  predicate FitsLevels(ls: Levels, size: nat) {
    && size >= PAGE_SIZE && (forall l: nat :: l <= |ls| ==> SizeFits(ls, size, l))
    && (|ls| == 4 ==> size < Cov(ls, 1))
  }

  /** The page sizes of a segment are among those given, those of its frames, and the smallest. */
  predicate SizeKnown(sizes: seq<nat>, frames: seq<E.Frame>, size: nat) {
    size == PAGE_SIZE || size in sizes || exists i :: 0 <= i < |frames| && frames[i].size == size
  }

  predicate AllSizesKnown(sizes: seq<nat>, frames: seq<E.Frame>, ps: seq<E.Page>) {
    forall k :: 0 <= k < |ps| ==> SizeKnown(sizes, frames, ps[k].size)
  }

  lemma {:induction false} PromoteSizes(sizes: seq<nat>, frames: seq<E.Frame>, v: nat, e: int, seg: E.Segment)
    ensures AllSizesKnown(sizes, frames, E.Promote(sizes, v, e, seg))
    decreases e - v
  {
    if v < e {
      E.PickFits(sizes, v, e - v);
      PromoteSizes(sizes, frames, v + E.Pick(sizes, v, e - v), e, seg);
    }
  }

  lemma {:induction false} RegionSizes(sizes: seq<nat>, frames: seq<E.Frame>, rs: seq<E.Piece>, seg: E.Segment)
    requires forall i :: 0 <= i < |rs| && rs[i].existing ==> rs[i].size > 0 && SizeKnown(sizes, frames, rs[i].size)
    ensures AllSizesKnown(sizes, frames, E.AllPages(sizes, rs, seg))
    decreases |rs|
  {
    if rs != [] {
      var r := rs[|rs| - 1];
      RegionSizes(sizes, frames, rs[..|rs| - 1], seg);
      if !r.existing { PromoteSizes(sizes, frames, E.Down(r.addr), r.addr + r.size, seg); }
    }
  }

  lemma {:induction false} SegmentSizes(sizes: seq<nat>, seg: E.Segment, frames: seq<E.Frame>)
    requires seg.memsz > 0 && E.GoodFrames(frames) && E.GetPages(sizes, seg, frames).Some?
    ensures AllSizesKnown(sizes, frames, E.GetPages(sizes, seg, frames).value)
  {
    var fs := E.RegionsInSegment(seg, frames).value;
    E.RegionsExact(seg, frames);
    E.SplitExact(seg, fs);
    var rs := E.Split(seg, fs).value;
    forall i | 0 <= i < |rs| && rs[i].existing ensures rs[i].size > 0 && SizeKnown(sizes, frames, rs[i].size) {
      assert E.GoodRegion(rs[i], i == 0);
      var f := E.Frame(rs[i].addr, rs[i].size);
      assert f in frames;
    }
    RegionSizes(sizes, frames, rs, seg);
  }

  /** The sizes a segment may use fit the page tables, and so does the segment. */
  predicate FitsTables(ls: Levels, sizes: seq<nat>, frames: seq<E.Frame>, seg: E.Segment) {
    && GoodLevels(ls) && 2 <= |ls| <= 4 && E.Up(E.End(seg)) <= Cov(ls, 0)
    && FitsLevels(ls, PAGE_SIZE) && (forall s :: s in sizes ==> FitsLevels(ls, s))
    && (forall i :: 0 <= i < |frames| ==> FitsLevels(ls, frames[i].size))
  }

  lemma {:induction false} MappedGood(ls: Levels, sizes: seq<nat>, frames: seq<E.Frame>, seg: E.Segment,
                                      ps: seq<E.Page>, s: nat)
    requires FitsTables(ls, sizes, frames, seg) && E.PagesTile(ps, s, E.Up(E.End(seg)))
    requires E.PagesAligned(ps) && AllSizesKnown(sizes, frames, ps)
    ensures GoodPages(ls, Mapped(ps)) && (|ls| == 4 ==> forall k :: 0 <= k < |ps| ==> ps[k].size < Cov(ls, 1))
  {
    E.TilesDisjoint(ps, s, E.Up(E.End(seg)));
    forall k | 0 <= k < |ps| ensures FitsLevels(ls, ps[k].size) && GoodPage(ls, Mapped(ps)[k]) {
      assert SizeKnown(sizes, frames, ps[k].size);
    }
  }

  /**
   From file to virtual memory. For frames that are placed well and page sizes that fit the page tables, the address
   space of a segment is built and loaded, and the byte that the loader's mappings show at any address is that of the
   segment's image: the file's bytes, then zeros, and nothing outside its pages.
   */
  lemma {:induction false} ImageLoaded(ls: Levels, sizes: seq<nat>, seg: E.Segment, frames: seq<E.Frame>,
                                       file: nat -> int)
    requires E.GoodSizes(sizes) && seg.memsz > 0 && E.GoodFrames(frames) && E.FramesAligned(frames)
             && E.AllPlaced(seg, frames)
    requires FitsTables(ls, sizes, frames, seg)
    ensures E.GetPages(sizes, seg, frames).Some?
    ensures var ps := E.GetPages(sizes, seg, frames).value;
            && Build(ls, Mapped(ps)).Some? && Load(ls, Build(ls, Mapped(ps)).value).Some?
            && forall a: nat ::
                   ByteAt(Load(ls, Build(ls, Mapped(ps)).value).value, ps, file, a) == E.Image(seg, file, a)
  {
    E.SegmentLoaded(sizes, seg, frames, file);
    var ps := E.GetPages(sizes, seg, frames).value;
    SegmentSizes(sizes, seg, frames);
    MappedGood(ls, sizes, frames, seg, ps, E.Down(seg.vaddr));
    AddressSpaceRoundTrip(ls, Mapped(ps));
    assert AllMapped(Mapped(ps), Load(ls, Build(ls, Mapped(ps)).value).value);
    var ms := Load(ls, Build(ls, Mapped(ps)).value).value;
    forall a: nat ensures ByteAt(ms, ps, file, a) == E.Image(seg, file, a) {
      MappingsShowMemory(ms, ps, E.Down(seg.vaddr), E.Up(E.End(seg)), file, a);
    }
  }
}
