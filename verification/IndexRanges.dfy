/**
 Index lists are printed as ranges, ascending or descending, and read back.
 */
module IndexRanges {

  datatype Range = Only(n: nat) | FromTo(first: nat, last: nat)

  /** The length of the run of successive numbers at the front, `successiveWordsUp`. */
  function UpLength(xs: seq<nat>): (r: nat)
    requires xs != []
    ensures 1 <= r <= |xs|
  {
    if |xs| > 1 && xs[0] + 1 == xs[1] then 1 + UpLength(xs[1..]) else 1
  }

  function DownLength(xs: seq<nat>): (r: nat)
    requires xs != []
    ensures 1 <= r <= |xs|
  {
    if |xs| > 1 && xs[0] == xs[1] + 1 then 1 + DownLength(xs[1..]) else 1
  }

  function RunLength(xs: seq<nat>): (r: nat)
    requires xs != []
    ensures 1 <= r <= |xs|
  {
    if UpLength(xs) == 1 then DownLength(xs) else UpLength(xs)
  }

  /** `breakSuccessive` and `prettyRanges` together. */
  function Compress(xs: seq<nat>): (rs: seq<Range>)
    ensures xs != [] ==> rs != []
  {
    if xs == [] then []
    else
      var n := RunLength(xs);
      [if n == 1 then Only(xs[0]) else FromTo(xs[0], xs[n - 1])] + Compress(xs[n..])
  }

  /** `unrange` for the two kinds of ranges that are printed. */
  function Unrange(r: Range): seq<nat> {
    match r
    case Only(n) => [n]
    case FromTo(a, b) =>
      if a <= b then seq(b - a + 1, i requires 0 <= i => a + i) else seq(a - b + 1, i requires 0 <= i <= a - b => a - i)
  }

  function Expand(rs: seq<Range>): seq<nat> {
    if rs == [] then [] else Unrange(rs[0]) + Expand(rs[1..])
  }

  lemma {:induction false} UpRun(xs: seq<nat>, k: nat)
    requires xs != [] && k < UpLength(xs)
    ensures xs[k] == xs[0] + k
    decreases k
  {
    if k > 0 { UpRun(xs[1..], k - 1); }
  }

  lemma {:induction false} DownRun(xs: seq<nat>, k: nat)
    requires xs != [] && k < DownLength(xs)
    ensures xs[k] == xs[0] - k
    decreases k
  {
    if k > 0 { DownRun(xs[1..], k - 1); }
  }

  /** A run cannot be continued in its own direction. */
  lemma {:induction false} RunMaximal(xs: seq<nat>)
    requires xs != []
    ensures UpLength(xs) < |xs| ==> xs[UpLength(xs) - 1] + 1 != xs[UpLength(xs)]
    ensures DownLength(xs) < |xs| ==> xs[DownLength(xs) - 1] != xs[DownLength(xs)] + 1
    decreases |xs|
  {
    if |xs| > 1 { RunMaximal(xs[1..]); }
  }

  /** One run is one range. */
  lemma {:induction false} RunRoundTrip(xs: seq<nat>)
    requires xs != []
    ensures Unrange(Compress(xs)[0]) == xs[..RunLength(xs)]
  {
    var n := RunLength(xs);
    var run, back := xs[..n], Unrange(Compress(xs)[0]);
    if UpLength(xs) > 1 {
      UpRun(xs, n - 1);
      forall k | 0 <= k < n ensures xs[k] == xs[0] + k { UpRun(xs, k); }
    } else {
      DownRun(xs, n - 1);
      forall k | 0 <= k < n ensures xs[k] == xs[0] - k { DownRun(xs, k); }
    }
    assert |back| == n;
    assert forall k :: 0 <= k < n ==> back[k] == run[k];
  }

  /** Every list of indices survives being printed as ranges and read back. */
  lemma {:induction false} RangesRoundTrip(xs: seq<nat>)
    ensures Expand(Compress(xs)) == xs
    decreases |xs|
  {
    if xs != [] {
      var n := RunLength(xs);
      var rs, rest := Compress(xs), Compress(xs[n..]);
      RunRoundTrip(xs);
      RangesRoundTrip(xs[n..]);
      assert rs[1..] == rest;
      assert Expand(rs) == xs[..n] + xs[n..];
    }
  }

  // ----- which ranges are printed -----

  /** The first `n` numbers go up by one each. */
  predicate Ascends(xs: seq<nat>, n: nat) {
    n <= |xs| && forall k :: 0 < k < n ==> xs[k] == xs[k - 1] + 1
  }

  predicate Descends(xs: seq<nat>, n: nat) {
    n <= |xs| && forall k :: 0 < k < n ==> xs[k] + 1 == xs[k - 1]
  }

  /** `n` numbers go up, and no more. */
  predicate LongestUp(xs: seq<nat>, n: nat) {
    n > 0 && Ascends(xs, n) && !Ascends(xs, n + 1)
  }

  predicate LongestDown(xs: seq<nat>, n: nat) {
    n > 0 && Descends(xs, n) && !Descends(xs, n + 1)
  }

  /** The first range takes all numbers that go up, or, if that is one only, all that go down. */
  predicate FirstRange(xs: seq<nat>, n: nat) {
    (n > 1 && LongestUp(xs, n)) || (LongestUp(xs, 1) && LongestDown(xs, n))
  }

  function RangeOf(xs: seq<nat>, n: nat): Range
    requires 0 < n <= |xs|
  {
    if n == 1 then Only(xs[0]) else FromTo(xs[0], xs[n - 1])
  }

  /** The ranges are the longest runs, one after the other. */
  ghost predicate LongestRuns(xs: seq<nat>, rs: seq<Range>)
    decreases |rs|
  {
    if rs == [] then xs == [] else exists n: nat :: RunThen(xs, rs, n) && LongestRuns(xs[n..], rs[1..])
  }

  ghost predicate RunThen(xs: seq<nat>, rs: seq<Range>, n: nat) {
    rs != [] && FirstRange(xs, n) && n <= |xs| && rs[0] == RangeOf(xs, n)
  }

  lemma {:induction false} UpLengthLongest(xs: seq<nat>)
    requires xs != []
    ensures LongestUp(xs, UpLength(xs))
  {
    var n := UpLength(xs);
    forall k | 0 < k < n ensures xs[k] == xs[k - 1] + 1 {
      UpRun(xs, k);
      UpRun(xs, k - 1);
    }
    RunMaximal(xs);
  }

  lemma {:induction false} DownLengthLongest(xs: seq<nat>)
    requires xs != []
    ensures LongestDown(xs, DownLength(xs))
  {
    var n := DownLength(xs);
    forall k | 0 < k < n ensures xs[k] + 1 == xs[k - 1] {
      DownRun(xs, k);
      DownRun(xs, k - 1);
    }
    RunMaximal(xs);
  }

  lemma {:induction false} LongestUpUnique(xs: seq<nat>, m: nat, n: nat)
    requires LongestUp(xs, m) && LongestUp(xs, n)
    ensures m == n
  {
  }

  lemma {:induction false} LongestDownUnique(xs: seq<nat>, m: nat, n: nat)
    requires LongestDown(xs, m) && LongestDown(xs, n)
    ensures m == n
  {
  }

  lemma {:induction false} FirstRangeIs(xs: seq<nat>, n: nat)
    requires xs != []
    ensures FirstRange(xs, n) <==> n == RunLength(xs)
  {
    UpLengthLongest(xs);
    DownLengthLongest(xs);
    if FirstRange(xs, n) {
      if n > 1 && LongestUp(xs, n) {
        LongestUpUnique(xs, n, UpLength(xs));
      } else {
        LongestUpUnique(xs, 1, UpLength(xs));
        LongestDownUnique(xs, n, DownLength(xs));
      }
    }
  }

  lemma {:induction false} RunThenIs(xs: seq<nat>, rs: seq<Range>, n: nat)
    requires xs != []
    ensures RunThen(xs, rs, n) <==> rs != [] && n == RunLength(xs) && rs[0] == Compress(xs)[0]
  {
    FirstRangeIs(xs, n);
  }

  /** What is printed for a list of indices is exactly its longest runs, up before down. */
  lemma {:induction false} CompressExact(xs: seq<nat>, rs: seq<Range>)
    ensures rs == Compress(xs) <==> LongestRuns(xs, rs)
    decreases |rs|
  {
    if xs == [] {
      assert forall n: nat :: !RunThen(xs, rs, n);
    } else if rs != [] {
      var n := RunLength(xs);
      forall m: nat ensures RunThen(xs, rs, m) <==> m == n && rs[0] == Compress(xs)[0] { RunThenIs(xs, rs, m); }
      CompressExact(xs[n..], rs[1..]);
      assert LongestRuns(xs, rs) <==> RunThen(xs, rs, n) && LongestRuns(xs[n..], rs[1..]);
      FirstAndRest(rs, Compress(xs));
      assert Compress(xs)[1..] == Compress(xs[n..]);
    }
  }

  lemma {:induction false} FirstAndRest(a: seq<Range>, b: seq<Range>)
    requires a != [] && b != []
    ensures a == b <==> a[0] == b[0] && a[1..] == b[1..]
  {
    assert a == [a[0]] + a[1..] && b == [b[0]] + b[1..];
  }

  /** The numbers of a range from some place on are a run. */
  lemma {:induction false} RangeIsRun(r: Range, k: nat, xs: seq<nat>)
    requires k < |Unrange(r)| <= k + |xs| && xs[..|Unrange(r)| - k] == Unrange(r)[k..]
    ensures |Unrange(r)| - k <= RunLength(xs)
  {
    var u, n := Unrange(r), |Unrange(r)| - k;
    assert forall i :: 0 <= i < n ==> xs[i] == xs[..n][i] == u[k + i];
    if n > 1 {
      if r.first <= r.last {
        assert Ascends(xs, n);
        AscendsWithin(xs, n);
      } else {
        assert Descends(xs, n);
        DescendsWithin(xs, n);
        assert xs[1] != xs[0] + 1;
      }
    }
  }

  lemma {:induction false} AscendsWithin(xs: seq<nat>, n: nat)
    requires 0 < n && Ascends(xs, n)
    ensures n <= UpLength(xs)
    decreases n
  {
    if n > 1 {
      assert forall k :: 0 < k < n - 1 ==> xs[1..][k] == xs[1..][k - 1] + 1;
      assert xs[1] == xs[0] + 1;
      AscendsWithin(xs[1..], n - 1);
    }
  }

  lemma {:induction false} DescendsWithin(xs: seq<nat>, n: nat)
    requires 0 < n && Descends(xs, n)
    ensures n <= DownLength(xs)
    decreases n
  {
    if n > 1 {
      assert forall k :: 0 < k < n - 1 ==> xs[1..][k] + 1 == xs[1..][k - 1];
      assert xs[1] + 1 == xs[0];
      DescendsWithin(xs[1..], n - 1);
    }
  }

  /** Any ranges for a list that ends in `xs` are at least as many as those printed for `xs`. */
  lemma {:induction false} SuffixShortest(rs: seq<Range>, k: nat)
    requires k <= |Expand(rs)|
    ensures |Compress(Expand(rs)[k..])| <= |rs|
    decreases |rs|
  {
    var xs := Expand(rs)[k..];
    if xs != [] {
      var u, rest := Unrange(rs[0]), Expand(rs[1..]);
      assert Expand(rs) == u + rest;
      if k >= |u| {
        assert xs == rest[k - |u|..];
        SuffixShortest(rs[1..], k - |u|);
      } else {
        assert xs == u[k..] + rest;
        RangeIsRun(rs[0], k, xs);
        var n := RunLength(xs);
        assert xs[n..] == rest[n - (|u| - k)..];
        SuffixShortest(rs[1..], n - (|u| - k));
      }
    }
  }

  /** No list of ranges that stands for the same indices is shorter than what is printed. */
  lemma {:induction false} CompressShortest(xs: seq<nat>, rs: seq<Range>)
    requires Expand(rs) == xs
    ensures |Compress(xs)| <= |rs|
  {
    SuffixShortest(rs, 0);
    assert Expand(rs)[0..] == xs;
  }
}
