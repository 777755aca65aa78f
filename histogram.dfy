/** The shade histogram of histogram.cpp: 256 bins counting the pixels of a
    grayscale image by shade, and the median and breakpoint scans of
    `balancedThreshold`. */
module Histogram {
  import opened Data

  /** The number of bins, one per shade. */
  const Shades := 256

  /** Each inner row has the length of the first one, as the class assumes. */
  predicate Rectangular(img: seq<seq<Shade>>)
  {
    forall y :: 0 <= y < |img| ==> |img[y]| == |img[0]|
  }

  /** The image width as the constructor computes it. */
  function Width(img: seq<seq<Shade>>): nat
  {
    if |img| > 0 then |img[0]| else 0
  }

  /** The pixels in scan order: row 0 first, each row left to right. */
  function Flat(img: seq<seq<Shade>>): seq<Shade>
  {
    if |img| == 0 then [] else Flat(img[..|img| - 1]) + img[|img| - 1]
  }

  /** A rectangular image has width * height pixels. */
  lemma {:induction false} FlatLength(img: seq<seq<Shade>>)
    requires Rectangular(img)
    ensures |Flat(img)| == Width(img) * |img|
  {
    if |img| > 0 {
      var front := img[..|img| - 1];
      assert Rectangular(front) by {
        forall y | 0 <= y < |front| ensures |front[y]| == |front[0]| {
          assert front[y] == img[y] && front[0] == img[0];
        }
      }
      FlatLength(front);
      assert Width(front) == Width(img) || |front| == 0;
    }
  }

  /** The bins after counting `pixels` one after the other, starting from 256
      zeros. */
  function Bins(pixels: seq<Shade>): (g: seq<int>)
    ensures |g| == Shades
  {
    if |pixels| == 0 then seq(Shades, _ => 0)
    else
      var before := Bins(pixels[..|pixels| - 1]);
      var s := pixels[|pixels| - 1];
      before[s := before[s] + 1]
  }

  /** Bin s is the number of pixels with shade s. */
  lemma {:induction false} BinsCount(pixels: seq<Shade>, s: Shade)
    ensures Bins(pixels)[s] == multiset(pixels)[s]
  {
    if |pixels| > 0 {
      var front := pixels[..|pixels| - 1];
      assert pixels == front + [pixels[|pixels| - 1]];
      BinsCount(front, s);
    }
  }

  /** The sum of the first n bins. */
  function Prefix(g: seq<int>, n: nat): int
    requires n <= |g|
  {
    if n == 0 then 0 else Prefix(g, n - 1) + g[n - 1]
  }

  /** Counting one more pixel adds one to the sum of the bins from its shade
      on, and nothing below it. */
  lemma {:induction false} PrefixBump(g: seq<int>, s: nat, n: nat)
    requires s < |g| && n <= |g|
    ensures Prefix(g[s := g[s] + 1], n) == Prefix(g, n) + (if s < n then 1 else 0)
  {
    if n > 0 {
      PrefixBump(g, s, n - 1);
    }
  }

  lemma {:induction false} PrefixOfZeros(n: nat)
    requires n <= Shades
    ensures Prefix(seq(Shades, _ => 0), n) == 0
  {
    if n > 0 {
      PrefixOfZeros(n - 1);
    }
  }

  /** The bins add up to the number of pixels counted. */
  lemma {:induction false} BinsSum(pixels: seq<Shade>)
    ensures Prefix(Bins(pixels), Shades) == |pixels|
  {
    if |pixels| > 0 {
      var front := pixels[..|pixels| - 1];
      var s := pixels[|pixels| - 1];
      assert Bins(pixels) == Bins(front)[s := Bins(front)[s] + 1];
      BinsSum(front);
      PrefixBump(Bins(front), s, Shades);
      assert Prefix(Bins(pixels), Shades) == Prefix(Bins(front), Shades) + 1;
    } else {
      PrefixOfZeros(Shades);
    }
  }

  /** Bin counts are never negative. */
  lemma {:induction false} BinsNonNegative(pixels: seq<Shade>)
    ensures forall s :: 0 <= s < Shades ==> Bins(pixels)[s] >= 0
  {
    if |pixels| > 0 {
      BinsNonNegative(pixels[..|pixels| - 1]);
    }
  }

  /** An image with no rows gives an all-zero graph; a rectangular image
      gives bins that count its shades and add up to width * height. */
  lemma HistogramOfImage(img: seq<seq<Shade>>)
    requires Rectangular(img)
    ensures |img| == 0 ==> Width(img) * |img| == 0 && Bins(Flat(img)) == seq(Shades, _ => 0)
    ensures Prefix(Bins(Flat(img)), Shades) == Width(img) * |img|
    ensures forall s: Shade :: Bins(Flat(img))[s] == multiset(Flat(img))[s]
  {
    FlatLength(img);
    BinsSum(Flat(img));
    forall s: Shade ensures Bins(Flat(img))[s] == multiset(Flat(img))[s] {
      BinsCount(Flat(img), s);
    }
  }

  /** The median scan: the first shade i at which `total / 2 < pixels +
      graph[i]`, pixels being the sum of the bins below i, or 0 when the scan
      finds none. */
  function MedianFrom(g: seq<int>, total: int, i: nat): (m: nat)
    requires i <= |g|
    ensures m < |g| || m == 0
    decreases |g| - i
  {
    if i == |g| then 0
    else if total / 2 < Prefix(g, i + 1) then i
    else MedianFrom(g, total, i + 1)
  }

  function Median(g: seq<int>, total: int): nat
  {
    MedianFrom(g, total, 0)
  }

  lemma {:induction false} MedianFromIsFirst(g: seq<int>, total: int, i: nat)
    requires 0 < |g| && i <= |g|
    requires forall n :: 1 <= n <= i ==> Prefix(g, n) <= total / 2
    ensures forall n :: 1 <= n <= MedianFrom(g, total, i) ==> Prefix(g, n) <= total / 2
    ensures || total / 2 < Prefix(g, MedianFrom(g, total, i) + 1)
            || (MedianFrom(g, total, i) == 0 && forall n :: 1 <= n <= |g| ==> Prefix(g, n) <= total / 2)
    decreases |g| - i
  {
    if i < |g| && Prefix(g, i + 1) <= total / 2 {
      MedianFromIsFirst(g, total, i + 1);
    }
  }

  /** The median is the first shade at which the cumulative count exceeds
      total / 2, or 0 when no shade does; for a graph whose counts add up to
      a positive total, some shade always does. */
  lemma MedianMeaning(g: seq<int>, total: int)
    requires |g| == Shades
    ensures Median(g, total) < Shades
    ensures forall n :: 1 <= n <= Median(g, total) ==> Prefix(g, n) <= total / 2
    ensures || total / 2 < Prefix(g, Median(g, total) + 1)
            || (Median(g, total) == 0 && forall n :: 1 <= n <= Shades ==> Prefix(g, n) <= total / 2)
    ensures Prefix(g, Shades) == total > 0 ==> total / 2 < Prefix(g, Median(g, total) + 1)
  {
    MedianFromIsFirst(g, total, 0);
    if Prefix(g, Median(g, total) + 1) <= total / 2 {
      assert Prefix(g, Shades) <= total / 2;
    }
  }

  /** The breakpoint scan: the first shade i whose cumulative count is more
      than a tenth of total (`1.0 * pixels / total > 0.1`, that is `10 *
      pixels > total`), or |g| when none is. */
  function FirstOverTenth(g: seq<int>, total: int, i: nat): (k: nat)
    requires i <= |g|
    ensures i <= k <= |g|
    decreases |g| - i
  {
    if i == |g| then |g|
    else if 10 * Prefix(g, i + 1) > total then i
    else FirstOverTenth(g, total, i + 1)
  }

  /** The last shade the loop records before it stops, or 0. */
  function Breakpoint(g: seq<int>, total: int): int
  {
    var k := FirstOverTenth(g, total, 0);
    if k == 0 then 0 else k - 1
  }

  lemma {:induction false} FirstOverTenthIsFirst(g: seq<int>, total: int, i: nat)
    requires i <= |g|
    ensures forall n :: i < n <= FirstOverTenth(g, total, i) ==> 10 * Prefix(g, n) <= total
    ensures FirstOverTenth(g, total, i) < |g| ==> 10 * Prefix(g, FirstOverTenth(g, total, i) + 1) > total
    decreases |g| - i
  {
    if i < |g| && 10 * Prefix(g, i + 1) <= total {
      FirstOverTenthIsFirst(g, total, i + 1);
    }
  }

  /** The breakpoint is the last shade up to which at most a tenth of the
      pixels lie, the next shade taking the share over a tenth; it is 0 when
      already the first bin does. */
  lemma BreakpointMeaning(g: seq<int>, total: int)
    requires |g| == Shades
    ensures 0 <= Breakpoint(g, total) < Shades
    ensures 10 * Prefix(g, 1) > total ==> Breakpoint(g, total) == 0
    ensures 10 * Prefix(g, 1) <= total ==> 10 * Prefix(g, Breakpoint(g, total) + 1) <= total
    ensures Breakpoint(g, total) + 1 < Shades && 10 * Prefix(g, 1) <= total ==>
      10 * Prefix(g, Breakpoint(g, total) + 2) > total
    ensures forall n :: 1 <= n <= Breakpoint(g, total) + 1 && 10 * Prefix(g, 1) <= total ==>
      10 * Prefix(g, n) <= total
  {
    FirstOverTenthIsFirst(g, total, 0);
  }

  class Histogram {
    /** `total`: width * height. */
    var total: int
    /** `graph`: one bin per shade. */
    const graph: array<int>

    /** `Histogram(img)`: 256 zero bins, then one increment per pixel in
        scan order. Rows must all be as long as the first. */
    constructor (img: seq<seq<Shade>>)
      requires Rectangular(img)
      ensures fresh(graph) && graph.Length == Shades
      ensures total == Width(img) * |img|
      ensures graph[..] == Bins(Flat(img))
    {
      graph := new int[Shades](_ => 0);
      var h := |img|;
      var w := if h > 0 then |img[0]| else 0;
      total := w * h;
      new;
      var y := 0;
      while y < h
        invariant 0 <= y <= h && graph.Length == Shades && total == w * h
        invariant graph[..] == Bins(Flat(img[..y]))
      {
        var x := 0;
        assert Flat(img[..y]) + img[y][..x] == Flat(img[..y]);
        while x < w
          invariant 0 <= x <= w && |img[y]| == w && total == w * h
          invariant graph[..] == Bins(Flat(img[..y]) + img[y][..x])
        {
          var pixels := Flat(img[..y]) + img[y][..x];
          assert (pixels + [img[y][x]])[..|pixels|] == pixels;
          assert Flat(img[..y]) + img[y][..x + 1] == pixels + [img[y][x]];
          graph[img[y][x]] := graph[img[y][x]] + 1;
          x := x + 1;
        }
        assert img[..y + 1][..y] == img[..y];
        assert img[y][..x] == img[y];
        y := y + 1;
      }
      assert img[..h] == img;
    }

    /** `balancedThreshold(initial)`: scans for the median and the
        breakpoint (both only reported) and returns `initial` unchanged. */
    method BalancedThreshold(initial: Shade) returns (threshold: Shade, median: int, breakpoint: int)
      ensures threshold == initial
      ensures median == Median(graph[..], total)
      ensures breakpoint == Breakpoint(graph[..], total)
    {
      var g := graph[..];
      var pixels := 0;
      median := 0;
      var i := 0;
      while i < graph.Length
        invariant 0 <= i <= graph.Length && g == graph[..]
        invariant pixels == Prefix(g, i)
        invariant MedianFrom(g, total, i) == Median(g, total)
      {
        if total / 2 < pixels + graph[i] {
          median := i;
          break;
        } else {
          pixels := pixels + graph[i];
        }
        i := i + 1;
      }

      pixels := 0;
      breakpoint := 0;
      i := 0;
      while i < graph.Length
        invariant 0 <= i <= graph.Length && g == graph[..]
        invariant pixels == Prefix(g, i)
        invariant FirstOverTenth(g, total, i) == FirstOverTenth(g, total, 0)
        invariant breakpoint == if i == 0 then 0 else i - 1
      {
        pixels := pixels + graph[i];
        if 10 * pixels > total {
          break;
        }
        breakpoint := i;
        i := i + 1;
      }
      threshold := initial;
    }
  }
}
