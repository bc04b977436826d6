/**
 Which page sizes a segment gets: outside the frames that exist already every page is the largest possible.
 */
module LargePages {
  import opened Wrappers
  import opened Arithmetic
  import opened Physical
  import opened Elf

  predicate Descending(sizes: seq<nat>) {
    forall i, j :: 0 <= i < j < |sizes| ==> sizes[i] >= sizes[j]
  }

  /** The page is as large as can be before `e`: aligned to its size, not past `e`, or of the smallest size. */
  predicate LargestBefore(sizes: seq<nat>, p: Page, e: int) {
    && (p.size == PAGE_SIZE || (p.size in sizes && Admissible(p.size, p.vaddr, e - p.vaddr)))
    && (forall s :: s in sizes && Admissible(s, p.vaddr, e - p.vaddr) ==> s <= p.size)
  }

  lemma {:induction false} PromoteLargest(sizes: seq<nat>, v: nat, e: int, seg: Segment)
    requires Descending(sizes)
    ensures forall k :: 0 <= k < |Promote(sizes, v, e, seg)| ==>
              v <= Promote(sizes, v, e, seg)[k].vaddr < e && LargestBefore(sizes, Promote(sizes, v, e, seg)[k], e)
    decreases e - v
  {
    if v < e {
      PickFits(sizes, v, e - v);
      PickLargest(sizes, v, e - v);
      PromoteLargest(sizes, v + Pick(sizes, v, e - v), e, seg);
    }
  }

  /** The page of a frame, or one of the pages of the piece in which there is none. */
  predicate OfPiece(sizes: seq<nat>, p: Page, r: Piece) {
    if r.existing then p.vaddr == r.addr && p.size == r.size
    else Down(r.addr) <= p.vaddr < r.addr + r.size && LargestBefore(sizes, p, r.addr + r.size)
  }

  ghost predicate OfSome(sizes: seq<nat>, p: Page, rs: seq<Piece>) {
    exists i :: 0 <= i < |rs| && OfPiece(sizes, p, rs[i])
  }

  lemma {:induction false} OfMore(sizes: seq<nat>, p: Page, rs: seq<Piece>, n: nat)
    requires n <= |rs| && OfSome(sizes, p, rs[..n])
    ensures OfSome(sizes, p, rs)
  {
    var i :| 0 <= i < n && OfPiece(sizes, p, rs[..n][i]);
    assert OfPiece(sizes, p, rs[i]);
  }

  lemma {:induction false} AllOfPieces(sizes: seq<nat>, rs: seq<Piece>, seg: Segment)
    requires Descending(sizes) && forall i :: 0 <= i < |rs| ==> rs[i].size >= 0
    ensures forall k :: 0 <= k < |AllPages(sizes, rs, seg)| ==> OfSome(sizes, AllPages(sizes, rs, seg)[k], rs)
    decreases |rs|
  {
    if rs != [] {
      var n := |rs| - 1;
      var a, b := AllPages(sizes, rs[..n], seg), RegionPages(sizes, rs[n], seg);
      AllOfPieces(sizes, rs[..n], seg);
      if !rs[n].existing { PromoteLargest(sizes, Down(rs[n].addr), rs[n].addr + rs[n].size, seg); }
      forall k | 0 <= k < |a| ensures OfSome(sizes, a[k], rs) { OfMore(sizes, a[k], rs, n); }
      forall k | 0 <= k < |b| ensures OfSome(sizes, b[k], rs) { assert OfPiece(sizes, b[k], rs[n]); }
    }
  }

  // ----- pieces without a frame reach to the next frame -----

  predicate Alternating(rs: seq<Piece>) {
    forall k :: 0 < k < |rs| && !rs[k].existing ==> rs[k - 1].existing
  }

  lemma {:induction false} SplitAlternates(seg: Segment, fs: seq<Frame>)
    requires seg.memsz > 0 && GoodFrames(fs) && AllContained(seg, fs)
    ensures Split(seg, fs).Some? && Alternating(Split(seg, fs).value)
    decreases |fs|
  {
    if fs != [] {
      var n := |fs| - 1;
      FramesPrefix(seg, fs);
      SplitAlternates(seg, fs[..n]);
      SplitExact(seg, fs[..n]);
      var rs := Split(seg, fs[..n]).value;
      SplitAtLast(rs, seg.vaddr, End(seg), fs[n]);
      AroundAlternates(rs, fs[n], End(seg));
    }
  }

  lemma {:induction false} AroundAlternates(rs: seq<Piece>, f: Frame, e: nat)
    requires rs != [] && Alternating(rs)
    ensures Alternating(Around(rs, f, e))
  {
    var n, c := |rs| - 1, Around(rs, f, e);
    forall k | 0 < k < |c| && !c[k].existing ensures c[k - 1].existing {
      if k <= n { assert c[k].existing == rs[k].existing && c[k - 1] == rs[k - 1]; }
    }
  }

  /** `e` is where the next frame after `v` begins, or the end of the segment if there is none. */
  ghost predicate NextStop(seg: Segment, fs: seq<Frame>, v: nat, e: int) {
    && v < e && (e == End(seg) || exists i :: 0 <= i < |fs| && fs[i].vaddr == e)
    && forall i :: 0 <= i < |fs| && v < fs[i].vaddr ==> e <= fs[i].vaddr
  }

  lemma {:induction false} PieceStops(rs: seq<Piece>, seg: Segment, fs: seq<Frame>, i: nat, v: nat)
    requires SplitBy(rs, seg, fs) && AllContained(seg, fs) && Alternating(rs) && i < |rs| && !rs[i].existing
    requires forall k :: 0 <= k < |fs| ==> fs[k].size > 0
    requires Down(rs[i].addr) <= v < rs[i].addr + rs[i].size
    ensures NextStop(seg, fs, v, rs[i].addr + rs[i].size)
  {
    var e := rs[i].addr + rs[i].size;
    TiledOrder(rs, seg.vaddr, End(seg), i);
    PieceEnds(rs, seg, fs, i);
    forall k | 0 <= k < |fs| && v < fs[k].vaddr ensures e <= fs[k].vaddr {
      assert AsPiece(fs[k]) in rs;
      var m :| 0 <= m < |rs| && rs[m] == AsPiece(fs[k]);
      assert Contained(seg, fs[k]);
      FrameOutside(rs, seg.vaddr, End(seg), i, m, v);
    }
  }

  /** A piece with a frame does not begin inside a piece without. */
  lemma {:induction false} FrameOutside(rs: seq<Piece>, s: nat, e: nat, i: nat, m: nat, v: nat)
    requires Tiled(rs, s, e) && GoodRegions(rs) && i < |rs| && m < |rs| && !rs[i].existing && rs[m].existing
    requires Down(rs[i].addr) <= v < rs[m].addr
    ensures rs[i].addr + rs[i].size <= rs[m].addr
  {
    if i < m {
      TiledApart(rs, s, e, i, m);
    } else {
      TiledApart(rs, s, e, m, i);
      assert GoodRegion(rs[i], i == 0) && GoodRegion(rs[m], m == 0);
      UpFixed(rs[i].addr);
    }
  }

  lemma {:induction false} PieceEnds(rs: seq<Piece>, seg: Segment, fs: seq<Frame>, i: nat)
    requires SplitBy(rs, seg, fs) && Alternating(rs) && i < |rs| && !rs[i].existing
    ensures var e := rs[i].addr + rs[i].size;
            e == End(seg) || exists k :: 0 <= k < |fs| && fs[k].vaddr == e
  {
    if i + 1 < |rs| {
      Adjoining(rs, seg.vaddr, End(seg), i);
      assert rs[i + 1].existing;
      var f := Frame(rs[i + 1].addr, rs[i + 1].size);
      assert f in fs;
      var k :| 0 <= k < |fs| && fs[k] == f;
    }
  }

  lemma {:induction false} Adjoining(rs: seq<Piece>, s: nat, e: nat, i: nat)
    requires Tiled(rs, s, e) && i + 1 < |rs|
    ensures rs[i].addr + rs[i].size == rs[i + 1].addr
    decreases |rs|
  {
    var n := |rs| - 1;
    if i + 1 < n {
      Adjoining(rs[..n], s, rs[n].addr, i);
    } else {
      assert rs[..n][n - 1] == rs[i];
    }
  }

  // ----- whole segments -----

  /** The page is that of a frame. */
  ghost predicate IsFrame(fs: seq<Frame>, p: Page) {
    exists i :: 0 <= i < |fs| && fs[i].vaddr == p.vaddr && fs[i].size == p.size
  }

  /** Between frames the page is as large as can be before the next frame or the end of the segment. */
  ghost predicate AsLargeAsCanBe(sizes: seq<nat>, seg: Segment, fs: seq<Frame>, p: Page) {
    exists e: int :: NextStop(seg, fs, p.vaddr, e) && LargestBefore(sizes, p, e)
  }

  lemma {:induction false} PieceLargest(sizes: seq<nat>, seg: Segment, fs: seq<Frame>, rs: seq<Piece>, p: Page)
    requires SplitBy(rs, seg, fs) && AllContained(seg, fs) && Alternating(rs) && OfSome(sizes, p, rs)
    requires forall k :: 0 <= k < |fs| ==> fs[k].size > 0
    ensures IsFrame(fs, p) || AsLargeAsCanBe(sizes, seg, fs, p)
  {
    var i :| 0 <= i < |rs| && OfPiece(sizes, p, rs[i]);
    if rs[i].existing {
      assert GoodRegion(rs[i], i == 0);
      var f := Frame(rs[i].addr, rs[i].size);
      assert f in fs;
      var k :| 0 <= k < |fs| && fs[k] == f;
    } else {
      PieceStops(rs, seg, fs, i, p.vaddr);
    }
  }

  /**
   Every page of a segment is that of a frame that exists already, or as large as can be: of the sizes to which its
   address is aligned, and with which it ends by the next frame or the end of the segment, it has the largest; if there
   is none, the smallest size of all.
   */
  lemma {:induction false} LargePagesUsed(sizes: seq<nat>, seg: Segment, frames: seq<Frame>) returns (fs: seq<Frame>)
    requires GoodSizes(sizes) && Descending(sizes) && seg.memsz > 0 && GoodFrames(frames)
    requires GetPages(sizes, seg, frames).Some?
    ensures forall f :: f in fs <==> f in frames && Relevant(seg, f)
    ensures var ps := GetPages(sizes, seg, frames).value;
            forall k :: 0 <= k < |ps| ==> IsFrame(fs, ps[k]) || AsLargeAsCanBe(sizes, seg, fs, ps[k])
  {
    RegionsExact(seg, frames);
    fs := RegionsInSegment(seg, frames).value;
    SplitExact(seg, fs);
    SplitAlternates(seg, fs);
    var rs := Split(seg, fs).value;
    forall i | 0 <= i < |rs| ensures rs[i].size >= 0 { TiledOrder(rs, seg.vaddr, End(seg), i); }
    AllOfPieces(sizes, rs, seg);
    var ps := AllPages(sizes, rs, seg);
    forall k | 0 <= k < |ps| ensures IsFrame(fs, ps[k]) || AsLargeAsCanBe(sizes, seg, fs, ps[k]) {
      PieceLargest(sizes, seg, fs, rs, ps[k]);
    }
  }
}
