/** Connected-component labelling of blobs.cpp.

    One raster scan (rows top to bottom, each row left to right) gives every
    black pixel a label.  A pixel copies the label of its first black
    neighbour among left, up-left, up and up-right, or opens a new label when
    it has none; when two of those neighbours carry different labels the
    older object is renamed with `switchLabel`.  Each object remembers the
    first and last pixel seen in scan order, which bounds the rows that a
    renaming has to visit.

    The image is given by its black/white answer per pixel: `img[y, x]` is
    `Pixels::black` inside the image, and `black` is false outside it. */
module Blobs {
  import opened Data

  /** `default_label`: the label of every pixel that is not black. */
  const DefaultLabel: int := 0

  /** The first and last pixel of an object in scan order. */
  datatype CoordPair = CoordPair(first: Coord, last: Coord)

  /** a comes no later than b in scan order. */
  predicate NotAfter(a: Coord, b: Coord)
  {
    !Less(b, a)
  }

  /** c lies between the object's first and last pixel in scan order. */
  predicate Within(c: Coord, o: CoordPair)
  {
    NotAfter(o.first, c) && NotAfter(c, o.last)
  }

  /** The bounds after `switchLabel` merged object o into object n: the
      earlier of the two firsts and the later of the two lasts. */
  function Widen(n: CoordPair, o: CoordPair): (r: CoordPair)
    ensures r.first == n.first || r.first == o.first
    ensures r.last == n.last || r.last == o.last
    ensures forall c :: Within(c, n) || Within(c, o) ==> Within(c, r)
  {
    CoordPair(if Less(o.first, n.first) then o.first else n.first,
              if Greater(o.last, n.last) then o.last else n.last)
  }

  /** The four neighbours already visited by the scan, in the order the
      source tries them: left, up-left, up, up-right. */
  function BackNeighbour(c: Coord, k: int): (p: Coord)
    requires 0 <= k < 4
    ensures Less(p, c)
    ensures c.y - 1 <= p.y <= c.y && c.x - 1 <= p.x <= c.x + 1
  {
    if k == 0 then Coord(c.x - 1, c.y)
    else if k == 1 then Coord(c.x - 1, c.y - 1)
    else if k == 2 then Coord(c.x, c.y - 1)
    else Coord(c.x + 1, c.y - 1)
  }

  /** `img.black(p)`: false outside the image. */
  predicate Black(img: array2<bool>, p: Coord)
    reads img
  {
    0 <= p.y < img.Length0 && 0 <= p.x < img.Length1 && img[p.y, p.x]
  }

  // ----- the scan invariant, in parts -----

  /** Pixels the scan has not reached still hold the default label. */
  predicate UnscannedDefault(a: array2<int>, cur: Coord)
    reads a
  {
    forall y, x :: 0 <= y < a.Length0 && 0 <= x < a.Length1 && !Less(Coord(x, y), cur) ==>
      a[y, x] == DefaultLabel
  }

  /** Among scanned pixels, exactly the black ones carry a label. */
  predicate ScannedLabelled(a: array2<int>, img: array2<bool>, cur: Coord)
    reads a, img
    requires a.Length0 == img.Length0 && a.Length1 == img.Length1
  {
    forall y, x :: 0 <= y < a.Length0 && 0 <= x < a.Length1 && Less(Coord(x, y), cur) ==>
      (img[y, x] <==> a[y, x] != DefaultLabel)
  }

  /** Every labelled pixel belongs to a recorded object and lies within its
      first/last bounds. */
  predicate InsideObjects(a: array2<int>, objs: map<int, CoordPair>)
    reads a
  {
    forall y, x :: 0 <= y < a.Length0 && 0 <= x < a.Length1 && a[y, x] != DefaultLabel ==>
      a[y, x] in objs && Within(Coord(x, y), objs[a[y, x]])
  }

  /** Recorded labels are positive and below `next_label`, and every
      object's bounds lie inside the image. */
  predicate ObjectsBounded(objs: map<int, CoordPair>, next: int, w: int, h: int)
  {
    forall l :: l in objs ==>
      && 0 < l < next
      && 0 <= objs[l].first.x < w && 0 <= objs[l].first.y < h
      && 0 <= objs[l].last.x < w && 0 <= objs[l].last.y < h
  }

  /** A scanned pixel whose label is settled carries the same label as each
      of its black back-neighbours. */
  predicate AgreesWithNeighbours(a: array2<int>, img: array2<bool>, c: Coord, upto: int)
    reads a, img
    requires a.Length0 == img.Length0 && a.Length1 == img.Length1
    requires 0 <= c.y < a.Length0 && 0 <= c.x < a.Length1
    requires 0 <= upto <= 4
  {
    forall k :: 0 <= k < upto && Black(img, BackNeighbour(c, k)) ==>
      a[BackNeighbour(c, k).y, BackNeighbour(c, k).x] == a[c.y, c.x]
  }

  predicate NeighboursAgree(a: array2<int>, img: array2<bool>, cur: Coord)
    reads a, img
    requires a.Length0 == img.Length0 && a.Length1 == img.Length1
  {
    forall y, x :: 0 <= y < a.Length0 && 0 <= x < a.Length1 && Less(Coord(x, y), cur) && img[y, x] ==>
      AgreesWithNeighbours(a, img, Coord(x, y), 4)
  }

  /** What pixel c joining object l works on, as one value for the
      two-state lemmas of `Blobs`. */
  datatype JoinStep = JoinStep(img: array2<bool>, c: Coord, l: int, next: int)

  /** What renaming object o into object n while settling c's i-th
      neighbour works on, as one value for the two-state lemmas of `Blobs`. */
  datatype MergeStep = MergeStep(img: array2<bool>, c: Coord, i: int, next: int, o: int, n: int)

  class Blobs {
    const w: int
    const h: int
    /** `labels[y][x]`. */
    const labels: array2<int>
    /** `objs`: each live label's first and last pixel. */
    var objs: map<int, CoordPair>

    /** `label(p)`: the label of p when `0 < x < w` and `0 < y < h`, and the
        default label otherwise, so row 0 and column 0 always read as
        background even where the scan labelled them. */
    function Label(p: Coord): (r: int)
      reads this, labels
      requires labels.Length0 == h && labels.Length1 == w
      ensures p.x <= 0 || p.y <= 0 || p.x >= w || p.y >= h ==> r == DefaultLabel
      ensures 0 < p.x < w && 0 < p.y < h ==> r == labels[p.y, p.x]
    {
      if p.x > 0 && p.x < w && p.y > 0 && p.y < h then labels[p.y, p.x] else DefaultLabel
    }

    /** The scan invariant with `cur` the next pixel to visit and `next` the
        value of `next_label`. */
    predicate Scanning(img: array2<bool>, cur: Coord, next: int)
      reads this, labels, img
    {
      && labels.Length0 == h == img.Length0 && labels.Length1 == w == img.Length1
      && UnscannedDefault(labels, cur)
      && ScannedLabelled(labels, img, cur)
      && InsideObjects(labels, objs)
      && ObjectsBounded(objs, next, w, h)
      && NeighboursAgree(labels, img, cur)
    }

    /** `Blobs(img)`: labels every black pixel.  Afterwards exactly the black
        pixels carry a non-default label, each black pixel agrees with each
        of its black left/up-left/up/up-right neighbours, and every label
        belongs to an object whose first/last bounds enclose its pixels. */
    constructor (img: array2<bool>)
      ensures w == img.Length1 && h == img.Length0
      ensures fresh(labels) && labels.Length0 == h && labels.Length1 == w
      ensures forall y, x :: 0 <= y < h && 0 <= x < w ==> (img[y, x] <==> labels[y, x] != DefaultLabel)
      ensures forall y, x :: 0 <= y < h && 0 <= x < w && img[y, x] ==>
        AgreesWithNeighbours(labels, img, Coord(x, y), 4)
      ensures InsideObjects(labels, objs)
      ensures forall l :: l in objs ==> l > DefaultLabel
    {
      w := img.Length1;
      h := img.Length0;
      labels := new int[img.Length0, img.Length1]((_, _) => DefaultLabel);
      objs := map[];
      new;
      var next := DefaultLabel + 1;
      var y := 0;
      while y < h
        invariant 0 <= y <= h || (h <= 0 && y == 0)
        invariant next >= DefaultLabel + 1
        invariant Scanning(img, Coord(0, y), next)
      {
        var x := 0;
        while x < w
          invariant 0 <= x <= w
          invariant next >= DefaultLabel + 1
          invariant Scanning(img, Coord(x, y), next)
        {
          next := ScanPoint(img, x, y, next);
          x := x + 1;
        }
        RowDone(img, y, next);
        y := y + 1;
      }
      ScanDone(img, y, next);
    }

    /** Moving from the end of row y to the start of row y + 1 visits no
        pixel. */
    lemma RowDone(img: array2<bool>, y: int, next: int)
      requires 0 <= y < h
      requires Scanning(img, Coord(w, y), next)
      ensures Scanning(img, Coord(0, y + 1), next)
    {
    }

    lemma ScanDone(img: array2<bool>, y: int, next: int)
      requires y >= h
      requires Scanning(img, Coord(0, y), next)
      ensures forall r, c :: 0 <= r < h && 0 <= c < w ==> (img[r, c] <==> labels[r, c] != DefaultLabel)
      ensures forall r, c :: 0 <= r < h && 0 <= c < w && img[r, c] ==>
        AgreesWithNeighbours(labels, img, Coord(c, r), 4)
      ensures forall l :: l in objs ==> l > DefaultLabel
    {
      forall r, c | 0 <= r < h && 0 <= c < w
        ensures Less(Coord(c, r), Coord(0, y))
      {
      }
    }

    /** Lines 19-68 for one pixel (x, y). */
    method ScanPoint(img: array2<bool>, x: int, y: int, next: int) returns (next': int)
      requires 0 <= x < w && 0 <= y < h
      requires next >= DefaultLabel + 1
      requires Scanning(img, Coord(x, y), next)
      modifies this, labels
      ensures next' >= next
      ensures Scanning(img, Coord(x + 1, y), next')
    {
      next' := next;
      var point := Coord(x, y);
      if !img[y, x] {
        SkipBackground(img, point, next);
        return;
      }
      var found := false;
      var k := 0;
      while k < 4
        invariant 0 <= k <= 4
        invariant forall j :: 0 <= j < k ==> !Black(img, BackNeighbour(point, j))
        invariant !found
      {
        var p := BackNeighbour(point, k);
        if Black(img, p) {
          found := true;
          break;
        }
        k := k + 1;
      }
      if found {
        var p := BackNeighbour(point, k);
        JoinNeighbour(img, point, p, next);
        var i := 0;
        while i < 4
          invariant 0 <= i <= 4
          invariant Settled(img, point, next, i)
        {
          MergeNeighbour(img, point, next, i);
          i := i + 1;
        }
        SettledDone(img, point, next);
      } else {
        NewObject(img, point, next);
        next' := next + 1;
      }
    }

    /** A pixel that is not black keeps the default label. */
    lemma SkipBackground(img: array2<bool>, c: Coord, next: int)
      requires 0 <= c.x < w && 0 <= c.y < h
      requires Scanning(img, c, next) && !img[c.y, c.x]
      ensures Scanning(img, Coord(c.x + 1, c.y), next)
    {
    }

    /** Lines 39 and 49: c copies the label of its black neighbour p and
        becomes the latest pixel of that object. */
    method JoinNeighbour(img: array2<bool>, c: Coord, p: Coord, next: int)
      requires 0 <= c.x < w && 0 <= c.y < h
      requires Scanning(img, c, next) && img[c.y, c.x]
      requires Black(img, p) && Less(p, c)
      modifies this, labels
      ensures labels[c.y, c.x] == old(labels[p.y, p.x]) != DefaultLabel
      ensures objs == old(objs)[labels[c.y, c.x] := CoordPair(old(objs[labels[p.y, p.x]]).first, c)]
      ensures Settled(img, c, next, 0)
    {
      var l := labels[p.y, p.x];
      assert Less(p, c) && l != DefaultLabel;
      assert l in objs && NotAfter(objs[l].first, c);
      labels[c.y, c.x] := l;
      objs := objs[l := CoordPair(objs[l].first, c)];
      JoinKeepsScan(JoinStep(img, c, l, next));
      JoinKeepsObjects(JoinStep(img, c, l, next));
    }

    /** Labelling the pixel s.c, the next one of the scan, with s.l keeps
        the scanned pixels' agreement and leaves the unscanned ones
        unlabelled. */
    twostate lemma JoinKeepsScan(s: JoinStep)
      requires labels.Length0 == h == s.img.Length0 && labels.Length1 == w == s.img.Length1
      requires 0 <= s.c.y < h && 0 <= s.c.x < w && unchanged(s.img) && s.img[s.c.y, s.c.x]
      requires s.l != DefaultLabel
      requires old(UnscannedDefault(labels, s.c)) && old(ScannedLabelled(labels, s.img, s.c))
      requires old(NeighboursAgree(labels, s.img, s.c))
      requires forall i, j :: 0 <= i < h && 0 <= j < w ==>
        labels[i, j] == if i == s.c.y && j == s.c.x then s.l else old(labels[i, j])
      ensures UnscannedDefault(labels, Coord(s.c.x + 1, s.c.y))
      ensures ScannedLabelled(labels, s.img, Coord(s.c.x + 1, s.c.y))
      ensures NeighboursAgree(labels, s.img, s.c)
    {
      forall y, x | 0 <= y < labels.Length0 && 0 <= x < labels.Length1 && Less(Coord(x, y), s.c) && s.img[y, x]
        ensures AgreesWithNeighbours(labels, s.img, Coord(x, y), 4)
      {
        assert old(AgreesWithNeighbours(labels, s.img, Coord(x, y), 4));
        forall k | 0 <= k < 4 ensures Less(BackNeighbour(Coord(x, y), k), s.c) {
        }
      }
    }

    /** s.c joins object s.l as its latest pixel: every labelled pixel is
        still within its object's bounds, which stay inside the image. */
    twostate lemma JoinKeepsObjects(s: JoinStep)
      requires labels.Length0 == h && labels.Length1 == w
      requires 0 <= s.c.y < h && 0 <= s.c.x < w && s.l != DefaultLabel
      requires old(UnscannedDefault(labels, s.c)) && old(InsideObjects(labels, objs))
      requires old(ObjectsBounded(objs, s.next, w, h))
      requires s.l in old(objs) && NotAfter(old(objs[s.l]).first, s.c)
      requires forall i, j :: 0 <= i < h && 0 <= j < w ==>
        labels[i, j] == if i == s.c.y && j == s.c.x then s.l else old(labels[i, j])
      requires objs == old(objs)[s.l := CoordPair(old(objs[s.l]).first, s.c)]
      ensures InsideObjects(labels, objs) && ObjectsBounded(objs, s.next, w, h)
    {
      forall y, x | 0 <= y < labels.Length0 && 0 <= x < labels.Length1 && labels[y, x] != DefaultLabel
        ensures labels[y, x] in objs && Within(Coord(x, y), objs[labels[y, x]])
      {
        if y != s.c.y || x != s.c.x {
          var l' := old(labels[y, x]);
          assert l' in old(objs) && Within(Coord(x, y), old(objs[l']));
          assert Less(Coord(x, y), s.c);
        }
      }
    }

    /** Lines 64-67: c opens a new object under label next. */
    method NewObject(img: array2<bool>, c: Coord, next: int)
      requires 0 <= c.x < w && 0 <= c.y < h && next > DefaultLabel
      requires Scanning(img, c, next) && img[c.y, c.x]
      requires forall k :: 0 <= k < 4 ==> !Black(img, BackNeighbour(c, k))
      modifies this, labels
      ensures next !in old(objs) && objs == old(objs)[next := CoordPair(c, c)]
      ensures labels[c.y, c.x] == next
      ensures Scanning(img, Coord(c.x + 1, c.y), next + 1)
    {
      labels[c.y, c.x] := next;
      objs := objs[next := CoordPair(c, c)];
    }

    /** Lines 55-57 for the i-th neighbour: when it is black and carries
        another label, its whole object is renamed to c's label. */
    method MergeNeighbour(img: array2<bool>, c: Coord, next: int, i: int)
      requires 0 <= i < 4
      requires Settled(img, c, next, i)
      modifies this, labels
      ensures Settled(img, c, next, i + 1)
    {
      var p := BackNeighbour(c, i);
      if Black(img, p) && labels[c.y, c.x] != labels[p.y, p.x] {
        var o, n := labels[p.y, p.x], labels[c.y, c.x];
        assert Less(p, Coord(c.x + 1, c.y)) && Less(c, Coord(c.x + 1, c.y));
        assert o != DefaultLabel && n != DefaultLabel;
        SwitchLabel(o, n);
        var step := MergeStep(img, c, i, next, o, n);
        RenameAll(step);
        RenameKeepsScan(step);
        RenameKeepsObjects(step);
        RenameKeepsAgreement(step);
      }
    }

    /** Every pixel labelled s.o lies within s.o's bounds, so `switchLabel`
        renames all of them. */
    twostate lemma RenameAll(s: MergeStep)
      requires labels.Length0 == h && labels.Length1 == w
      requires s.o != DefaultLabel && s.o in old(objs)
      requires old(InsideObjects(labels, objs))
      requires forall i, j :: 0 <= i < h && 0 <= j < w ==>
        labels[i, j] == if old(labels[i, j]) == s.o && Within(Coord(j, i), old(objs[s.o])) then s.n else old(labels[i, j])
      ensures forall i, j :: 0 <= i < h && 0 <= j < w ==>
        labels[i, j] == if old(labels[i, j]) == s.o then s.n else old(labels[i, j])
    {
    }

    /** Renaming one label to another, neither the default, changes which
        pixels are labelled nowhere: the scan invariant still holds with
        the pixel after s.c next. */
    twostate lemma RenameKeepsScan(s: MergeStep)
      requires labels.Length0 == h == s.img.Length0 && labels.Length1 == w == s.img.Length1
      requires unchanged(s.img) && s.o != DefaultLabel && s.n != DefaultLabel
      requires old(UnscannedDefault(labels, Coord(s.c.x + 1, s.c.y)))
      requires old(ScannedLabelled(labels, s.img, Coord(s.c.x + 1, s.c.y)))
      requires forall i, j :: 0 <= i < h && 0 <= j < w ==>
        labels[i, j] == if old(labels[i, j]) == s.o then s.n else old(labels[i, j])
      ensures UnscannedDefault(labels, Coord(s.c.x + 1, s.c.y))
      ensures ScannedLabelled(labels, s.img, Coord(s.c.x + 1, s.c.y))
    {
    }

    /** After the renaming every labelled pixel still lies within its
        object's bounds, and the widened bounds stay inside the image. */
    twostate lemma RenameKeepsObjects(s: MergeStep)
      requires labels.Length0 == h && labels.Length1 == w
      requires s.o != s.n && s.o != DefaultLabel && s.n != DefaultLabel
      requires s.o in old(objs) && s.n in old(objs)
      requires old(InsideObjects(labels, objs)) && old(ObjectsBounded(objs, s.next, w, h))
      requires forall i, j :: 0 <= i < h && 0 <= j < w ==>
        labels[i, j] == if old(labels[i, j]) == s.o then s.n else old(labels[i, j])
      requires objs == old(objs)[s.n := Widen(old(objs[s.n]), old(objs[s.o]))] - {s.o}
      ensures InsideObjects(labels, objs) && ObjectsBounded(objs, s.next, w, h)
    {
      forall y, x | 0 <= y < labels.Length0 && 0 <= x < labels.Length1 && labels[y, x] != DefaultLabel
        ensures labels[y, x] in objs && Within(Coord(x, y), objs[labels[y, x]])
      {
        var l := old(labels[y, x]);
        assert l in old(objs) && Within(Coord(x, y), old(objs[l]));
      }
    }

    /** Renaming is the same on both ends of every neighbour pair, so the
        pairs that agreed still agree, and s.c now agrees with its s.i-th
        neighbour too. */
    twostate lemma RenameKeepsAgreement(s: MergeStep)
      requires labels.Length0 == h == s.img.Length0 && labels.Length1 == w == s.img.Length1
      requires 0 <= s.c.y < h && 0 <= s.c.x < w && 0 <= s.i < 4
      requires unchanged(s.img) && s.o != s.n
      requires old(NeighboursAgree(labels, s.img, s.c))
      requires old(AgreesWithNeighbours(labels, s.img, s.c, s.i))
      requires old(labels[s.c.y, s.c.x]) == s.n
      requires Black(s.img, BackNeighbour(s.c, s.i))
      requires old(labels[BackNeighbour(s.c, s.i).y, BackNeighbour(s.c, s.i).x]) == s.o
      requires forall i, j :: 0 <= i < h && 0 <= j < w ==>
        labels[i, j] == if old(labels[i, j]) == s.o then s.n else old(labels[i, j])
      ensures NeighboursAgree(labels, s.img, s.c)
      ensures AgreesWithNeighbours(labels, s.img, s.c, s.i + 1)
    {
      forall y, x | 0 <= y < labels.Length0 && 0 <= x < labels.Length1 && Less(Coord(x, y), s.c) && s.img[y, x]
        ensures AgreesWithNeighbours(labels, s.img, Coord(x, y), 4)
      {
        assert old(AgreesWithNeighbours(labels, s.img, Coord(x, y), 4));
      }
    }

    lemma SettledDone(img: array2<bool>, c: Coord, next: int)
      requires Settled(img, c, next, 4)
      ensures Scanning(img, Coord(c.x + 1, c.y), next)
    {
      forall y, x | 0 <= y < labels.Length0 && 0 <= x < labels.Length1 && Less(Coord(x, y), Coord(c.x + 1, c.y)) && img[y, x]
        ensures AgreesWithNeighbours(labels, img, Coord(x, y), 4)
      {
        if Coord(x, y) != c {
          assert Less(Coord(x, y), c);
        }
      }
    }

    /** The scan invariant just after pixel c got its label, with its first
        `upto` back-neighbours already merged into its object. */
    predicate Settled(img: array2<bool>, c: Coord, next: int, upto: int)
      reads this, labels, img
      requires 0 <= upto <= 4
    {
      && labels.Length0 == h == img.Length0 && labels.Length1 == w == img.Length1
      && 0 <= c.y < h && 0 <= c.x < w && img[c.y, c.x]
      && UnscannedDefault(labels, Coord(c.x + 1, c.y))
      && ScannedLabelled(labels, img, Coord(c.x + 1, c.y))
      && InsideObjects(labels, objs)
      && ObjectsBounded(objs, next, w, h)
      && NeighboursAgree(labels, img, c)
      && AgreesWithNeighbours(labels, img, c, upto)
    }

    /** `switchLabel(old, new)`: every pixel labelled oldLabel between the old
        object's first and last pixel in scan order is relabelled newLabel
        (rows first.y to last.y, skipping before first.x on the first row and
        after last.x on the last), the new object's bounds widen to cover the
        old one's, and the old object is erased. */
    method SwitchLabel(oldLabel: int, newLabel: int)
      requires labels.Length0 == h && labels.Length1 == w
      requires oldLabel in objs && newLabel in objs && oldLabel != newLabel
      requires 0 <= objs[oldLabel].first.y && objs[oldLabel].last.y < h
      modifies this, labels
      ensures forall i, j :: 0 <= i < h && 0 <= j < w ==>
        labels[i, j] == if old(labels[i, j]) == oldLabel && Within(Coord(j, i), old(objs[oldLabel]))
                        then newLabel else old(labels[i, j])
      ensures objs == old(objs)[newLabel := Widen(old(objs[newLabel]), old(objs[oldLabel]))] - {oldLabel}
    {
      var oldFirst, oldLast := objs[oldLabel].first, objs[oldLabel].last;
      var y := oldFirst.y;
      while y <= oldLast.y
        invariant oldFirst.y <= y && (y <= oldLast.y + 1 || y == oldFirst.y)
        invariant objs == old(objs)
        invariant forall i, j :: 0 <= i < h && 0 <= j < w ==>
          labels[i, j] == if old(labels[i, j]) == oldLabel && Within(Coord(j, i), old(objs[oldLabel])) && i < y
                          then newLabel else old(labels[i, j])
      {
        var x := 0;
        while x < w
          invariant 0 <= x <= w
          invariant objs == old(objs)
          invariant forall i, j :: 0 <= i < h && 0 <= j < w ==>
            labels[i, j] == if old(labels[i, j]) == oldLabel && Within(Coord(j, i), old(objs[oldLabel]))
                                && (i < y || (i == y && j < x))
                            then newLabel else old(labels[i, j])
        {
          if !((y == oldFirst.y && x < oldFirst.x) || (y == oldLast.y && x > oldLast.x)) {
            if labels[y, x] == oldLabel {
              labels[y, x] := newLabel;
            }
          }
          x := x + 1;
        }
        y := y + 1;
      }
      var widened := Widen(objs[newLabel], objs[oldLabel]);
      objs := objs[newLabel := widened];
      objs := objs - {oldLabel};
    }
  }
}
