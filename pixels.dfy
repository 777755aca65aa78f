/** The grayscale image of pixels.cpp: loading a decoded RGB image row by
    row, the black-pixel test, debugging marks, and the bottom-up RGB buffer
    written when the marked image is saved. */
module Pixels {
  import opened Wrappers
  import opened Data
  import opened Options

  /** What the image decoder hands over: the dimensions it reports and three
      bytes (R, G, B) per pixel in row-major order. */
  datatype Decoded = Decoded(w: int, h: int, rgb: seq<Shade>)

  /** The decoder copies exactly w * h * 3 bytes for a non-negative size. */
  predicate WellSized(decoded: Option<Decoded>)
  {
    decoded.Some? && decoded.value.w >= 0 && decoded.value.h >= 0 ==>
      |decoded.value.rgb| == decoded.value.w * decoded.value.h * 3
  }

  /** An image of h rows of w pixels each. */
  predicate Rect(img: seq<seq<Shade>>, w: int, h: int)
  {
    |img| == h && forall y :: 0 <= y < h ==> |img[y]| == w
  }

  /** The gray value of the k-th pixel: the average of its three channels,
      rounded down. */
  function GrayOf(rgb: seq<Shade>, k: nat): Shade
    requires 3 * k + 2 < |rgb|
  {
    var sum: int := rgb[3 * k] as int + rgb[3 * k + 1] as int + rgb[3 * k + 2] as int;
    sum / 3
  }

  /** Positions before (y, x) in scan order lie below y * w + x, and a row
      index below h leaves room for a whole row. */
  lemma RowMajorBound(y: int, x: int, w: int, h: int)
    requires 0 <= x < w && 0 <= y && 0 <= h
    ensures y * w + x < w * h <==> y < h
    ensures y < h ==> (y + 1) * w <= w * h
  {
    if y < h {
      assert (y + 1) * w <= h * w by {
        assert y + 1 <= h;
      }
    } else {
      assert y * w >= h * w by {
        assert y >= h;
      }
    }
  }

  lemma NextRow(y: int, w: int)
    ensures (y + 1) * w == y * w + w
  {
  }

  /** The loaded image: pixel (x, y) holds the gray value of triple
      y * w + x. */
  function GrayImage(d: Decoded): (img: seq<seq<Shade>>)
    requires d.w >= 0 && d.h >= 0 && |d.rgb| == d.w * d.h * 3
    ensures Rect(img, d.w, d.h)
  {
    seq(d.h, y requires 0 <= y < d.h => GrayRow(d, y))
  }

  /** Row y of the loaded image. */
  function GrayRow(d: Decoded, y: int): (row: seq<Shade>)
    requires d.w >= 0 && d.h >= 0 && |d.rgb| == d.w * d.h * 3 && 0 <= y < d.h
    ensures |row| == d.w
    ensures forall x :: 0 <= x < d.w ==> row[x] == GrayAt(d, y, x)
  {
    seq(d.w, x requires 0 <= x < d.w => GrayAt(d, y, x))
  }

  function GrayAt(d: Decoded, y: int, x: int): (v: Shade)
    requires d.w >= 0 && d.h >= 0 && |d.rgb| == d.w * d.h * 3 && 0 <= y < d.h && 0 <= x < d.w
    ensures 0 <= y * d.w + x < d.w * d.h && v == GrayOf(d.rgb, y * d.w + x)
  {
    RowMajorBound(y, x, d.w, d.h);
    GrayOf(d.rgb, y * d.w + x)
  }

  /** The i-th RGB triple lands at (i mod w, i div w). */
  lemma LoadIsRowMajor(d: Decoded, i: int)
    requires d.w > 0 && d.h >= 0 && |d.rgb| == d.w * d.h * 3
    requires 0 <= i < d.w * d.h
    ensures 0 <= i / d.w < d.h && 0 <= i % d.w < d.w
    ensures GrayImage(d)[i / d.w][i % d.w] == GrayOf(d.rgb, i)
  {
    var y, x := i / d.w, i % d.w;
    assert y * d.w + x == i;
    RowMajorBound(y, x, d.w, d.h);
  }

  /** The points `mark` keeps: strictly inside the image, so row and column 0
      are refused. */
  predicate Interior(c: Coord, w: int, h: int)
  {
    0 < c.x < w && 0 < c.y < h
  }

  /** The cross drawn at c covers (x, y): the horizontal arm runs over the
      columns strictly between c.x - MarkSize and c.x + MarkSize, the
      vertical one over such rows, each clipped to exclude index 0 and to
      stay below the image size. */
  predicate Covers(c: Coord, w: int, h: int, x: int, y: int)
  {
    || (y == c.y && c.x - MarkSize < x < c.x + MarkSize && 0 < x < w)
    || (x == c.x && c.y - MarkSize < y < c.y + MarkSize && 0 < y < h)
  }

  /** Some mark's cross covers (x, y). */
  predicate Covered(marks: seq<Coord>, w: int, h: int, x: int, y: int)
  {
    exists m :: m in marks && Covers(m, w, h, x, y)
  }

  /** The copy that `save` draws: the mark color on every covered pixel, the
      image's own value elsewhere. */
  function Drawn(img: seq<seq<Shade>>, marks: seq<Coord>, w: int, h: int): (d: seq<seq<Shade>>)
    requires w >= 0 && Rect(img, w, h)
    ensures Rect(d, w, h)
  {
    seq(h, y requires 0 <= y < h =>
      seq(w, x requires 0 <= x < w =>
        if Covered(marks, w, h, x, y) then MarkColor else img[y][x]))
  }

  /** Without marks the saved picture is the image itself. */
  lemma DrawnWithoutMarks(img: seq<seq<Shade>>, w: int, h: int)
    requires w >= 0 && Rect(img, w, h)
    ensures Drawn(img, [], w, h) == img
  {
    forall y | 0 <= y < h ensures Drawn(img, [], w, h)[y] == img[y] {
    }
  }

  /** One pixel as its R, G and B bytes, all equal to the gray value. */
  function RGB(row: seq<Shade>): (r: seq<Shade>)
    ensures |r| == 3 * |row|
  {
    if |row| == 0 then [] else RGB(row[..|row| - 1]) + [row[|row| - 1], row[|row| - 1], row[|row| - 1]]
  }

  /** The buffer handed to the encoder: the last row first, up to row 0. */
  function Layout(img: seq<seq<Shade>>): seq<Shade>
  {
    if |img| == 0 then [] else Layout(img[1..]) + RGB(img[0])
  }

  lemma {:induction false} RGBAt(row: seq<Shade>, x: int, k: int)
    requires 0 <= x < |row| && 0 <= k < 3
    ensures RGB(row)[3 * x + k] == row[x]
  {
    if x < |row| - 1 {
      RGBAt(row[..|row| - 1], x, k);
    }
  }

  lemma {:induction false} LayoutLength(img: seq<seq<Shade>>, w: int, h: int)
    requires Rect(img, w, h)
    ensures |Layout(img)| == w * h * 3
  {
    if h > 0 {
      LayoutLength(img[1..], w, h - 1);
    }
  }

  /** The saved buffer lists the rows bottom-up: pixel (x, y) is bytes
      3 * ((h - 1 - y) * w + x) to that plus 2, all three its gray value. */
  lemma {:induction false} LayoutAt(img: seq<seq<Shade>>, w: int, h: int, y: int, x: int, k: int)
    requires Rect(img, w, h)
    requires 0 <= y < h && 0 <= x < w && 0 <= k < 3
    ensures 0 <= 3 * ((h - 1 - y) * w + x) + k < |Layout(img)|
    ensures Layout(img)[3 * ((h - 1 - y) * w + x) + k] == img[y][x]
  {
    LayoutLength(img[1..], w, h - 1);
    assert Layout(img) == Layout(img[1..]) + RGB(img[0]);
    if y == 0 {
      RGBAt(img[0], x, k);
      assert (h - 1 - y) * w == w * (h - 1);
    } else {
      LayoutAt(img[1..], w, h - 1, y - 1, x, k);
      RowMajorBound(h - 1 - y, x, w, h - 1);
    }
  }

  class Pixels {
    /** `width()` and `height()`. */
    var w: int
    var h: int
    /** `p[y][x]`: the gray value of each pixel. */
    var p: seq<seq<Shade>>
    /** Points to draw a cross at when saving. */
    var marks: seq<Coord>
    /** `valid()`: an image was decoded. */
    var loaded: bool

    /** The image is h rows of w pixels and every mark is inside it. */
    ghost predicate Valid()
      reads this
    {
      && w >= 0 && h >= 0 && Rect(p, w, h)
      && forall m :: m in marks ==> Interior(m, w, h)
    }

    /** `Pixels()`: the empty placeholder image. */
    constructor Empty()
      ensures Valid() && w == 0 && h == 0 && p == [] && marks == [] && !loaded
    {
      w, h := 0, 0;
      p, marks := [], [];
      loaded := false;
    }

    /** The successful branch of `Pixels(type, lump, size)`: an h by w image
        of zeros, then one pixel per RGB triple, advancing x and wrapping to
        the next row at the end of each row. */
    constructor Decode(d: Decoded)
      requires d.w >= 0 && d.h >= 0 && |d.rgb| == d.w * d.h * 3
      ensures Valid() && loaded && marks == []
      ensures w == d.w && h == d.h && p == GrayImage(d)
    {
      w, h := d.w, d.h;
      marks := [];
      loaded := false;
      var total := d.w * d.h * 3;
      p := seq(d.h, _ => seq(d.w, _ => 0));
      new;
      var x, y := 0, 0;
      var i := 2;
      ghost var k := 0;
      while i < total
        invariant w == d.w && h == d.h && marks == [] && Rect(p, w, h)
        invariant 0 <= x && (w > 0 ==> x < w) && 0 <= y
        invariant i == 3 * k + 2 && k == y * w + x && k <= w * h
        invariant forall yy, xx :: 0 <= yy < h && 0 <= xx < w ==>
          p[yy][xx] == if yy < y || (yy == y && xx < x) then GrayAt(d, yy, xx) else 0
      {
        RowMajorBound(y, x, w, h);
        assert i / 3 == k;
        var row: seq<Shade> := p[y][x := GrayOf(d.rgb, i / 3)];
        assert row[x] == GrayAt(d, y, x);
        p := p[y := row];
        if x + 1 == w {
          NextRow(y, w);
          x := 0;
          y := y + 1;
        } else {
          x := x + 1;
        }
        i := i + 3;
        k := k + 1;
      }
      assert w > 0 ==> y >= h by {
        if w > 0 {
          RowMajorBound(y, x, w, h);
        }
      }
      forall yy | 0 <= yy < h ensures p[yy] == GrayImage(d)[yy] {
        assert yy < y || w == 0;
      }
      loaded := true;
    }

    /** `black(c, default_value)`: the default outside the image, otherwise
        whether the pixel is darker than `GrayShade`. */
    predicate Black(c: Coord, defaultValue: bool)
      requires Valid()
      reads this
    {
      if c.x >= w || c.y >= h || c.x < 0 || c.y < 0 then defaultValue
      else p[c.y][c.x] < GrayShade
    }

    /** `mark(c)`: remembers an interior point; any other point is
        ignored. */
    method Mark(c: Coord)
      requires Valid()
      modifies this
      ensures Valid()
      ensures marks == if Interior(c, w, h) then old(marks) + [c] else old(marks)
      ensures w == old(w) && h == old(h) && p == old(p) && loaded == old(loaded)
    {
      if c.x > 0 && c.y > 0 && c.x < w && c.y < h {
        marks := marks + [c];
      }
    }

    /** `save(filename)`: draws the marks on a copy of the image and lays
        the copy out bottom-up as RGB bytes; the image and its marks stay as
        they are. Writing the file is not modelled. */
    method Save() returns (buffer: seq<Shade>)
      requires Valid()
      ensures buffer == Layout(Drawn(p, marks, w, h))
    {
      var copy := DrawMarks(p, marks, w, h);
      buffer := RGBBuffer(copy, w, h);
    }
  }

  /** The first part of `save`: the image copied, then a cross drawn at each
      mark in turn. */
  method DrawMarks(img: seq<seq<Shade>>, marks: seq<Coord>, w: int, h: int) returns (copy: seq<seq<Shade>>)
    requires w >= 0 && Rect(img, w, h)
    requires forall m :: m in marks ==> Interior(m, w, h)
    ensures copy == Drawn(img, marks, w, h)
  {
    copy := img;
    var k := 0;
    while k < |marks|
      invariant 0 <= k <= |marks| && Rect(copy, w, h)
      invariant forall y, x :: 0 <= y < h && 0 <= x < w ==>
        copy[y][x] == if Covered(marks[..k], w, h, x, y) then MarkColor else img[y][x]
    {
      var c := marks[k];
      copy := DrawCross(copy, w, h, c);
      forall y, x | 0 <= y < h && 0 <= x < w
        ensures copy[y][x] == if Covered(marks[..k + 1], w, h, x, y) then MarkColor else img[y][x]
      {
        assert marks[..k + 1] == marks[..k] + [c];
        if Covers(c, w, h, x, y) {
          assert c in marks[..k + 1];
        } else if Covered(marks[..k], w, h, x, y) {
          var m :| m in marks[..k] && Covers(m, w, h, x, y);
          assert m in marks[..k + 1];
        }
      }
      k := k + 1;
    }
    assert marks[..k] == marks;
    forall y | 0 <= y < h ensures copy[y] == Drawn(img, marks, w, h)[y] {
    }
  }

  /** The second part of `save`: a buffer of w * h * 3 bytes filled from the
      bottom row up, three equal bytes per pixel, at a running position. */
  method RGBBuffer(copy: seq<seq<Shade>>, w: int, h: int) returns (buffer: seq<Shade>)
    requires w >= 0 && h >= 0 && Rect(copy, w, h)
    ensures buffer == Layout(copy)
  {
    var data := new Shade[w * h * 3];
    var pos := 0;
    var y := h - 1;
    ghost var rest := w * h * 3;
    assert rest == 3 * w * (y + 1);
    while y >= 0
      invariant -1 <= y < h && 0 <= pos
      invariant pos + rest == data.Length && rest == 3 * w * (y + 1)
      invariant data[..pos] == Layout(copy[y + 1..])
    {
      RowBytes(w, y);
      pos := PutRow(data, pos, copy[y]);
      assert copy[y..][1..] == copy[y + 1..] && copy[y..][0] == copy[y];
      rest := rest - 3 * w;
      y := y - 1;
    }
    assert pos == data.Length;
    assert data[..] == data[..pos];
    assert copy[0..] == copy;
    buffer := data[..];
  }

  /** The bytes of rows 0 to y are those of rows 0 to y - 1 and one more row. */
  lemma RowBytes(w: int, y: int)
    requires w >= 0 && y >= 0
    ensures 3 * w * (y + 1) == 3 * w * y + 3 * w && 3 * w * y >= 0
  {
  }

  /** One row of `save`'s buffer loop: the row's pixels written as three
      equal bytes each from position pos on. */
  method PutRow(data: array<Shade>, pos: int, row: seq<Shade>) returns (next: int)
    requires 0 <= pos && pos + 3 * |row| <= data.Length
    modifies data
    ensures next == pos + 3 * |row|
    ensures data[..next] == old(data[..pos]) + RGB(row)
  {
    next := pos;
    var x := 0;
    while x < |row|
      invariant 0 <= x <= |row| && next == pos + 3 * x
      invariant data[..next] == old(data[..pos]) + RGB(row[..x])
    {
      var val := row[x];
      ghost var before := data[..next];
      data[next] := val;
      data[next + 1] := val;
      data[next + 2] := val;
      assert data[..next + 3] == before + [val, val, val];
      assert row[..x + 1][..x] == row[..x];
      next := next + 3;
      x := x + 1;
    }
    assert row[..x] == row;
  }

  /** One iteration of `save`'s mark loop: the left, right, up and down
      arms of the cross at c, each loop stopping at the arm's length or at
      the image edge. */
  method DrawCross(img: seq<seq<Shade>>, w: int, h: int, c: Coord) returns (copy: seq<seq<Shade>>)
    requires Rect(img, w, h) && Interior(c, w, h)
    ensures Rect(copy, w, h)
    ensures forall y, x :: 0 <= y < h && 0 <= x < w ==>
      copy[y][x] == if Covers(c, w, h, x, y) then MarkColor else img[y][x]
  {
    copy := img;
    // Left
    var i := c.x;
    while i > c.x - MarkSize && i > 0
      invariant c.x - MarkSize <= i <= c.x && 0 <= i && Rect(copy, w, h)
      invariant forall y, x :: 0 <= y < h && 0 <= x < w ==>
        copy[y][x] == if y == c.y && i < x <= c.x then MarkColor else img[y][x]
    {
      var row: seq<Shade> := copy[c.y][i := MarkColor];
      copy := copy[c.y := row];
      i := i - 1;
    }
    var left := i;
    // Right
    i := c.x;
    while i < c.x + MarkSize && i < w
      invariant c.x <= i <= c.x + MarkSize && i <= w && Rect(copy, w, h)
      invariant forall y, x :: 0 <= y < h && 0 <= x < w ==>
        copy[y][x] == if y == c.y && left < x && (x <= c.x || x < i) then MarkColor else img[y][x]
    {
      var row: seq<Shade> := copy[c.y][i := MarkColor];
      copy := copy[c.y := row];
      i := i + 1;
    }
    var right := i;
    // Up
    i := c.y;
    while i > c.y - MarkSize && i > 0
      invariant c.y - MarkSize <= i <= c.y && 0 <= i && Rect(copy, w, h)
      invariant forall y, x :: 0 <= y < h && 0 <= x < w ==>
        copy[y][x] == if (y == c.y && left < x < right) || (x == c.x && i < y <= c.y) then MarkColor else img[y][x]
    {
      var row: seq<Shade> := copy[i][c.x := MarkColor];
      copy := copy[i := row];
      i := i - 1;
    }
    var up := i;
    // Down
    i := c.y;
    while i < c.y + MarkSize && i < h
      invariant c.y <= i <= c.y + MarkSize && i <= h && Rect(copy, w, h)
      invariant forall y, x :: 0 <= y < h && 0 <= x < w ==>
        copy[y][x] == if (y == c.y && left < x < right) || (x == c.x && up < y && (y <= c.y || y < i)) then MarkColor else img[y][x]
    {
      var row: seq<Shade> := copy[i][c.x := MarkColor];
      copy := copy[i := row];
      i := i + 1;
    }
  }

  /** `Pixels(type, lump, size)`: a decoder failure and a negative size are
      runtime errors; otherwise the decoded image. */
  method Load(decoded: Option<Decoded>) returns (r: Result<Pixels>)
    requires WellSized(decoded)
    ensures decoded.None? ==> r == Err("could not read image")
    ensures decoded.Some? && (decoded.value.w < 0 || decoded.value.h < 0) ==>
      r == Err("use a smaller image, can't store dimensions in int")
    ensures decoded.Some? && decoded.value.w >= 0 && decoded.value.h >= 0 ==>
      && r.Ok? && r.value.Valid() && r.value.loaded && r.value.marks == []
      && r.value.w == decoded.value.w && r.value.h == decoded.value.h
      && r.value.p == GrayImage(decoded.value)
  {
    if decoded.None? {
      return Err("could not read image");
    }
    var d := decoded.value;
    if d.w < 0 || d.h < 0 {
      return Err("use a smaller image, can't store dimensions in int");
    }
    var px := new Pixels.Decode(d);
    r := Ok(px);
  }

  /** A loaded pixel reads as black exactly when the sum of its three
      channels is below 3 * `GrayShade`. */
  lemma BlackOfLoaded(px: Pixels, d: Decoded, x: int, y: int, defaultValue: bool)
    requires d.w >= 0 && d.h >= 0 && |d.rgb| == d.w * d.h * 3
    requires px.Valid() && px.w == d.w && px.h == d.h && px.p == GrayImage(d)
    requires 0 <= x < d.w && 0 <= y < d.h
    ensures 0 <= y * d.w + x < d.w * d.h
    ensures var k := y * d.w + x;
      px.Black(Coord(x, y), defaultValue) <==> d.rgb[3 * k] + d.rgb[3 * k + 1] + d.rgb[3 * k + 2] < 3 * GrayShade
  {
    RowMajorBound(y, x, d.w, d.h);
    assert px.p[y][x] == GrayOf(d.rgb, y * d.w + x);
  }

  /** Outside the image `black` answers with the default. */
  lemma BlackOutside(px: Pixels, c: Coord, defaultValue: bool)
    requires px.Valid() && !(0 <= c.x < px.w && 0 <= c.y < px.h)
    ensures px.Black(c, defaultValue) == defaultValue
  {
  }
}
