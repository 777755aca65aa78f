/** Box detection helpers (box.cpp): the square clamped into the image, the
    clockwise search for the next edge pixel around a point, the vote on the
    direction of recent moves, and the learning of the typical box diagonal.

    The label of a pixel comes from the connected-component labelling; here
    it is a total function `labelAt` from coordinates to labels. */
module Box {
  import opened Wrappers
  import opened Data
  import opened MapUtils
  import opened MathUtils
  import opened Options

  // ----- the neighbour table -----

  /** `Box::matrix`: the eight neighbours clockwise from the upper left.
        0 1 2
        7   3
        6 5 4 */
  const Matrix: seq<Coord> := [Coord(-1, -1), Coord(0, -1), Coord(1, -1), Coord(1, 0),
                               Coord(1, 1), Coord(0, 1), Coord(-1, 1), Coord(-1, 0)]

  // ----- Square -----

  /** The clamped square around a point: corners and midpoint. */
  datatype Square = Square(topleft: Coord, bottomright: Coord, midpoint: Coord)

  predicate InImage(w: int, h: int, c: Coord)
  {
    0 <= c.x < w && 0 <= c.y < h
  }

  /** `Square(img, x, y, r)` for an image w pixels wide and h high: the corners
      x - r and x + r (likewise for y) pulled into the image, and the midpoint
      their truncated mean.  For a non-negative centre and radius the square
      lies inside the image with its midpoint between its corners. */
  function MakeSquare(w: int, h: int, x: int, y: int, r: int): (s: Square)
    ensures x >= 0 && y >= 0 && r >= 0 && w >= 1 && h >= 1 ==>
      && 0 <= s.topleft.x <= s.midpoint.x <= s.bottomright.x <= w - 1
      && 0 <= s.topleft.y <= s.midpoint.y <= s.bottomright.y <= h - 1
      && 2 * s.midpoint.x <= s.topleft.x + s.bottomright.x <= 2 * s.midpoint.x + 1
      && 2 * s.midpoint.y <= s.topleft.y + s.bottomright.y <= 2 * s.midpoint.y + 1
  {
    var x1 := Min(if x <= r then 0 else x - r, w - 1);
    var y1 := Min(if y <= r then 0 else y - r, h - 1);
    var x2 := Min(x + r, w - 1);
    var y2 := Min(y + r, h - 1);
    Square(Coord(x1, y1), Coord(x2, y2), Coord(CDiv(x1 + x2, 2), CDiv(y1 + y2, 2)))
  }

  function Min(a: int, b: int): int
  {
    if a <= b then a else b
  }

  /** `Square::in`: inclusive on all four edges. */
  predicate In(s: Square, c: Coord)
  {
    c.x >= s.topleft.x && c.x <= s.bottomright.x && c.y >= s.topleft.y && c.y <= s.bottomright.y
  }

  /** For a non-negative centre and radius, the square holds every image pixel
      within r of the centre on both axes, and only image pixels not beyond
      x + r, y + r.  Unless the centre lies more than r past the far edge
      (where the square collapses onto that edge), it holds nothing farther
      than r from the centre either. */
  lemma SquareIsClippedBox(w: int, h: int, x: int, y: int, r: int, c: Coord)
    requires x >= 0 && y >= 0 && r >= 0 && w >= 1 && h >= 1
    ensures InImage(w, h, c) && Abs(c.x - x) <= r && Abs(c.y - y) <= r ==> In(MakeSquare(w, h, x, y, r), c)
    ensures In(MakeSquare(w, h, x, y, r), c) ==> InImage(w, h, c) && c.x <= x + r && c.y <= y + r
    ensures In(MakeSquare(w, h, x, y, r), c) && x - r <= w - 1 && y - r <= h - 1 ==>
      Abs(c.x - x) <= r && Abs(c.y - y) <= r
  {
  }

  // ----- findEdge -----

  /** For each of the eight neighbours of p, whether it carries the label `lab`. */
  function Inside(labelAt: Coord -> int, p: Coord, lab: int): (inside: seq<bool>)
    ensures |inside| == 8
  {
    seq(8, i requires 0 <= i < 8 => labelAt(Add(p, Matrix[i])) == lab)
  }

  /** The first neighbour at or after `from` that is outside, or 8. */
  function FirstOutside(inside: seq<bool>, from: nat): (f: nat)
    requires |inside| == 8 && from <= 8
    ensures from <= f <= 8
    ensures forall i :: from <= i < f ==> inside[i]
    ensures f < 8 ==> !inside[f]
    decreases 8 - from
  {
    if from == 8 || !inside[from] then from else FirstOutside(inside, from + 1)
  }

  /** The neighbour k clockwise steps after neighbour f. */
  function Rot(f: nat, k: nat): (n: nat)
    requires f < 8 && k <= 8
    ensures n < 8
  {
    if f + k < 8 then f + k else f + k - 8
  }

  /** Every neighbour is some number of clockwise steps after f. */
  lemma RotReaches(f: nat, i: nat)
    requires f < 8 && i < 8
    ensures Rot(f, (i - f) % 8) == i
  {
    var k := (i - f) % 8;
    assert k == i - f || k == i - f + 8;
  }

  /** Counting clockwise steps from neighbour f: the first step count at or
      after k that lands inside, or 8. */
  function NextInside(inside: seq<bool>, f: nat, k: nat): (j: nat)
    requires |inside| == 8 && f < 8 && k <= 8
    ensures k <= j <= 8
    ensures forall i :: k <= i < j ==> !inside[Rot(f, i)]
    ensures j < 8 ==> inside[Rot(f, j)]
    decreases 8 - k
  {
    if k == 8 || inside[Rot(f, k)] then k else NextInside(inside, f, k + 1)
  }

  /** What `findEdge` is meant to return: going clockwise from the first
      outside neighbour, the last outside neighbour before an inside one; -1
      when the neighbours are all inside or all outside. */
  function EdgeSpec(inside: seq<bool>): (r: int)
    requires |inside| == 8
    ensures r == -1 <==> (forall i :: 0 <= i < 8 ==> inside[i]) || (forall i :: 0 <= i < 8 ==> !inside[i])
    ensures r != -1 ==> 0 <= r < 8 && !inside[r] && inside[Rot(r, 1)]
    ensures r != -1 ==> var f := FirstOutside(inside, 0);
      f < 8 && exists n :: 0 <= n < 8 && r == Rot(f, n) && forall k :: 0 <= k <= n ==> !inside[Rot(f, k)]
  {
    var f := FirstOutside(inside, 0);
    if f == 8 then -1
    else
      var j := NextInside(inside, f, 1);
      if j == 8 then
        assert forall i :: 0 <= i < 8 ==> !inside[i] by {
          forall i | 0 <= i < 8 ensures !inside[i] {
            RotReaches(f, i);
          }
        }
        -1
      else
        assert Rot(Rot(f, j - 1), 1) == Rot(f, j);
        assert forall k :: 0 <= k <= j - 1 ==> !inside[Rot(f, k)] by {
          assert Rot(f, 0) == f;
        }
        Rot(f, j - 1)
  }

  /** `Box::findEdge`, with the clockwise step wrapping from neighbour 7 back to
      neighbour 0.  First finds an outside neighbour, then steps clockwise
      until a neighbour carries the label and returns the one before it. */
  method FindEdge(labelAt: Coord -> int, p: Coord, lab: int) returns (result: int)
    ensures result == EdgeSpec(Inside(labelAt, p, lab))
  {
    var index := FirstOutsideIndex(labelAt, p, lab);
    result := -1;
    if index != -1 {
      result := WalkClockwise(labelAt, p, lab, index);
    }
  }

  /** The first loop of `findEdge`: the first neighbour without the label,
      or -1. */
  method FirstOutsideIndex(labelAt: Coord -> int, p: Coord, lab: int) returns (index: int)
    ensures var f := FirstOutside(Inside(labelAt, p, lab), 0);
      index == if f == 8 then -1 else f
  {
    ghost var inside := Inside(labelAt, p, lab);
    index := -1;
    var i := 0;
    while i < 8
      invariant 0 <= i <= 8 && index == -1
      invariant forall j :: 0 <= j < i ==> inside[j]
    {
      if labelAt(Add(p, Matrix[i])) != lab {
        index := i;
        assert !inside[index];
        return;
      }
      i := i + 1;
    }
  }

  /** The second loop of `findEdge`, from the first outside neighbour f:
      step clockwise until a neighbour carries the label and return the one
      before it, or -1 after eight steps. */
  method WalkClockwise(labelAt: Coord -> int, p: Coord, lab: int, f: nat) returns (result: int)
    requires f < 8 && f == FirstOutside(Inside(labelAt, p, lab), 0)
    ensures result == EdgeSpec(Inside(labelAt, p, lab))
  {
    ghost var inside := Inside(labelAt, p, lab);
    result := -1;
    var index := f;
    var checked := 0;
    while checked < 8
      invariant 0 <= checked <= 8 && result == -1
      invariant index == Rot(f, checked)
      invariant forall k :: 0 <= k < checked ==> !inside[Rot(f, k)]
    {
      if labelAt(Add(p, Matrix[index])) == lab {
        var previous := if index == 0 then 7 else index - 1;
        assert previous == Rot(f, checked - 1);
        if labelAt(Add(p, Matrix[previous])) != lab {
          assert inside[Rot(f, checked)];
          EdgeSpecFrom(inside, f, checked);
          result := previous;
          return;
        }
        index := previous;
      } else {
        index := if index == 7 then 0 else index + 1;
      }
      checked := checked + 1;
    }
    EdgeSpecFrom(inside, f, 8);
  }

  /** With f the first outside neighbour and j the first step count from 1
      on that lands inside (8 for none), the edge is the neighbour one step
      before j, or -1. */
  lemma EdgeSpecFrom(inside: seq<bool>, f: nat, j: nat)
    requires |inside| == 8 && f < 8 && f == FirstOutside(inside, 0)
    requires 1 <= j <= 8 && (forall k :: 1 <= k < j ==> !inside[Rot(f, k)]) && (j < 8 ==> inside[Rot(f, j)])
    ensures EdgeSpec(inside) == if j == 8 then -1 else Rot(f, j - 1)
  {
    NextInsideIs(inside, f, 1, j);
  }

  lemma {:induction false} NextInsideIs(inside: seq<bool>, f: nat, k: nat, j: nat)
    requires |inside| == 8 && f < 8 && k <= j <= 8
    requires (forall i :: k <= i < j ==> !inside[Rot(f, i)]) && (j < 8 ==> inside[Rot(f, j)])
    ensures NextInside(inside, f, k) == j
    decreases 8 - k
  {
    if k < j {
      NextInsideIs(inside, f, k + 1, j);
    }
  }

  // ----- findEdge as written -----

  /** How the search of `findEdge` as written ends: an edge index, -1, or a
      read of `matrix[8]`, one past the end of the table. */
  datatype EdgeOutcome = Edge(index: int) | NoEdge | ReadsPastTable

  /** `Box::findEdge` as written: `++index` has no wrap, so stepping on from
      neighbour 7 reads `matrix[8]`. */
  function FindEdgeAsWritten(inside: seq<bool>): (r: EdgeOutcome)
    requires |inside| == 8
  {
    var f := FirstOutside(inside, 0);
    if f == 8 then NoEdge else EdgeLoopAsWritten(inside, f, 0)
  }

  /** The `while (checked < matrix.size())` loop of `findEdge` as written. */
  function EdgeLoopAsWritten(inside: seq<bool>, index: int, checked: nat): EdgeOutcome
    requires |inside| == 8 && 0 <= index <= 8 && checked <= 8
    decreases 8 - checked
  {
    if checked == 8 then NoEdge
    else if index == 8 then ReadsPastTable
    else if inside[index] then
      var previous := if index == 0 then 7 else index - 1;
      if !inside[previous] then Edge(previous) else EdgeLoopAsWritten(inside, previous, checked + 1)
    else EdgeLoopAsWritten(inside, index + 1, checked + 1)
  }

  /** Neighbours lo..hi-1 are all outside. */
  predicate OutsideRun(inside: seq<bool>, lo: nat, hi: nat)
    requires |inside| == 8 && lo <= hi <= 8
  {
    forall i :: lo <= i < hi ==> !inside[i]
  }

  /** Neighbours 0..k-1 are inside and k..7 outside. */
  predicate InsideThenOutside(inside: seq<bool>, k: nat)
    requires |inside| == 8 && k <= 8
  {
    (forall i :: 0 <= i < k ==> inside[i]) && OutsideRun(inside, k, 8)
  }

  /** The loop as written, started k steps past the first outside neighbour f
      with those k neighbours outside: it finds the first inside neighbour
      before the end of the table, or runs off the table unless f is 0. */
  lemma {:induction false} EdgeLoopAsWrittenSteps(inside: seq<bool>, f: nat, k: nat)
    requires |inside| == 8 && f < 8 && f + k <= 8 && 1 <= k
    requires OutsideRun(inside, f, f + k)
    ensures var j := NextInside(inside, f, k);
      EdgeLoopAsWritten(inside, f + k, k) ==
        if f + j < 8 then Edge(f + j - 1) else if f == 0 then NoEdge else ReadsPastTable
    decreases 8 - k
  {
    if f + k < 8 {
      assert Rot(f, k) == f + k;
      if inside[f + k] {
        assert !inside[f + k - 1];
      } else {
        EdgeLoopAsWrittenSteps(inside, f, k + 1);
      }
    }
  }

  /** `findEdge` as written reads past the table exactly when neighbour 0 is
      inside and the neighbours form one inside run 0..k-1 followed by one
      outside run k..7; on every other input it agrees with `EdgeSpec`. */
  lemma FindEdgeAsWrittenOverruns(inside: seq<bool>)
    requires |inside| == 8
    ensures FindEdgeAsWritten(inside) == ReadsPastTable <==>
      exists k :: 0 < k < 8 && InsideThenOutside(inside, k)
    ensures FindEdgeAsWritten(inside) != ReadsPastTable ==>
      FindEdgeAsWritten(inside) == if EdgeSpec(inside) == -1 then NoEdge else Edge(EdgeSpec(inside))
  {
    var f := FirstOutside(inside, 0);
    if f < 8 {
      EdgeLoopAsWrittenSteps(inside, f, 1);
      var j := NextInside(inside, f, 1);
      if f + j < 8 {
        assert Rot(f, j) == f + j;
        forall k | 0 < k < 8 ensures !InsideThenOutside(inside, k) {
          if k <= f + j {
            assert inside[f + j];
          } else {
            assert !inside[f];
          }
        }
      } else if f > 0 {
        forall i | f < i < 8 ensures !inside[i] {
          assert !inside[Rot(f, i - f)];
        }
        assert InsideThenOutside(inside, f);
      }
    }
  }

  /** The overrun happens: neighbour 0 inside, the other seven outside. The
      intended answer is 7, whose clockwise successor 0 is inside. */
  lemma FindEdgeOverrunExample()
    ensures FindEdgeAsWritten([true, false, false, false, false, false, false, false]) == ReadsPastTable
    ensures EdgeSpec([true, false, false, false, false, false, false, false]) == 7
  {
    var inside := [true, false, false, false, false, false, false, false];
    FindEdgeAsWrittenOverruns(inside);
    assert InsideThenOutside(inside, 1);
  }

  // ----- findDirection -----

  /** The general direction of recent moves.  The `Direction` enumeration is
      declared outside the modelled files; its four corners and `Unknown` are
      what `findDirection` and `turnedAround` use. */
  datatype Direction = TL | TR | BR | BL | Unknown

  /** Whether a move along neighbour `index` counts toward d: each direction
      takes three neighbours, so corners 0, 2, 4 and 6 count twice. */
  predicate Votes(index: int, d: Direction)
  {
    match d
    case TL => index == 0 || index == 1 || index == 2
    case TR => index == 2 || index == 3 || index == 4
    case BR => index == 4 || index == 5 || index == 6
    case BL => index == 0 || index == 6 || index == 7
    case Unknown => false
  }

  /** How many of the moves count toward d. */
  function Tally(moves: seq<int>, d: Direction): (n: nat)
    ensures n <= |moves|
  {
    if |moves| == 0 then 0
    else Tally(moves[..|moves| - 1], d) + (if Votes(moves[|moves| - 1], d) then 1 else 0)
  }

  /** The `sums` map of `findDirection`, in key order. */
  function Sums(moves: seq<int>): (sums: seq<(Direction, int)>)
    ensures |sums| == 4
  {
    [(TL, Tally(moves, TL)), (TR, Tally(moves, TR)), (BR, Tally(moves, BR)), (BL, Tally(moves, BL))]
  }

  /** What `findDirection` returns: the key of the maximal sum, unless that
      sum occurs more than once. */
  function DirectionOf(moves: seq<int>): Direction
  {
    var sums := Sums(moves);
    var max := MapMaxValueKey(sums, Unknown);
    match Lookup(sums, max)
    case Some(v) => if CountValue(sums, v) > 1 then Unknown else max
    case None => Unknown
  }

  /** CountValue over a four-entry map, entry by entry. */
  lemma CountValueOfFour<K>(m: seq<(K, int)>, v: int)
    requires |m| == 4
    ensures CountValue(m, v) == (if m[0].1 == v then 1 else 0) + (if m[1].1 == v then 1 else 0)
                               + (if m[2].1 == v then 1 else 0) + (if m[3].1 == v then 1 else 0)
  {
    assert CountValue(m[..1], v) == (if m[0].1 == v then 1 else 0) by {
      assert m[..1][..0] == [];
    }
    assert m[..2][..1] == m[..1];
    assert CountValue(m[..2], v) == CountValue(m[..1], v) + (if m[1].1 == v then 1 else 0);
    assert m[..3][..2] == m[..2];
    assert CountValue(m[..3], v) == CountValue(m[..2], v) + (if m[2].1 == v then 1 else 0);
  }

  /** `findDirection` yields the direction with the strictly greatest tally,
      and `Unknown` exactly when two directions share the greatest tally; so
      the order of the keys in `sums` does not matter. */
  lemma DirectionIsUniqueMax(moves: seq<int>)
    ensures var r := DirectionOf(moves);
      r != Unknown ==> forall d :: d != Unknown && d != r ==> Tally(moves, d) < Tally(moves, r)
    ensures DirectionOf(moves) == Unknown ==>
      exists d, e :: d != e && d != Unknown && e != Unknown && Tally(moves, d) == Tally(moves, e)
        && forall c :: c != Unknown ==> Tally(moves, c) <= Tally(moves, d)
  {
    var sums := Sums(moves);
    var m := MaxValueIndex(sums);
    var v := sums[m].1;
    LookupFirst(sums, m);
    CountValueOfFour(sums, v);
    assert sums[0].1 == Tally(moves, TL) && sums[1].1 == Tally(moves, TR);
    assert sums[2].1 == Tally(moves, BR) && sums[3].1 == Tally(moves, BL);
  }

  /** `Box::findDirection`: tallies the moves remembered in the window, in
      its iteration order, then picks the key of the maximal sum and reports
      `Unknown` if that sum is shared. */
  method FindDirection(previous: seq<int>) returns (dir: Direction)
    ensures dir == DirectionOf(previous)
  {
    var tl, tr, br, bl := 0, 0, 0, 0;
    var i := 0;
    while i < |previous|
      invariant 0 <= i <= |previous|
      invariant tl == Tally(previous[..i], TL) && tr == Tally(previous[..i], TR)
      invariant br == Tally(previous[..i], BR) && bl == Tally(previous[..i], BL)
    {
      var index := previous[i];
      assert previous[..i + 1][..i] == previous[..i];
      if index == 0 || index == 1 || index == 2 {
        tl := tl + 1;
      }
      if index == 2 || index == 3 || index == 4 {
        tr := tr + 1;
      }
      if index == 4 || index == 5 || index == 6 {
        br := br + 1;
      }
      if index == 0 || index == 6 || index == 7 {
        bl := bl + 1;
      }
      i := i + 1;
    }
    assert previous[..|previous|] == previous;
    var sums := [(TL, tl), (TR, tr), (BR, br), (BL, bl)];
    var max := MapMaxValueKey(sums, Unknown);
    var value := Lookup(sums, max);
    dir := Unknown;
    if value.Some? {
      var count := MapCountValue(sums, value.value);
      if count <= 1 {
        dir := max;
      }
    }
  }

  // ----- turnedAround -----

  /** `Box::turnedAround`: whether moving along neighbour `index` heads back
      against the direction `dir`. */
  predicate TurnedAround(dir: Direction, index: int)
  {
    match dir
    case TL => index == 5
    case TR => index == 7
    case BR => index == 1
    case BL => index == 3
    case Unknown => false
  }

  /** The one neighbour that counts toward d and toward no other direction. */
  predicate OnlyVotes(j: int, d: Direction)
  {
    Votes(j, d) && forall e :: e != d ==> !Votes(j, e)
  }

  /** The middle neighbour of a direction's three: the only one that counts
      toward it alone. */
  function Middle(d: Direction): (j: int)
    requires d != Unknown
    ensures 0 <= j < 8 && OnlyVotes(j, d)
    ensures forall k :: 0 <= k < 8 && OnlyVotes(k, d) ==> k == j
  {
    assert Votes(0, TL) && Votes(0, BL) && Votes(2, TL) && Votes(2, TR);
    assert Votes(4, TR) && Votes(4, BR) && Votes(6, BR) && Votes(6, BL);
    match d
    case TL => 1
    case TR => 3
    case BR => 5
    case BL => 7
  }

  /** `turnedAround` holds exactly when the move is the reverse of the middle
      move of `dir`; never for `Unknown`. */
  lemma TurnedAroundIsReversal(dir: Direction, index: int)
    ensures dir == Unknown ==> !TurnedAround(dir, index)
    ensures dir != Unknown ==>
      (TurnedAround(dir, index) <==> 0 <= index < 8 && Add(Matrix[index], Matrix[Middle(dir)]) == Origin)
  {
    if dir != Unknown && 0 <= index < 8 {
      var m := Middle(dir);
      MatrixOpposite(m);
      var c := Matrix[m];
      assert Add(Matrix[index], c) == Origin <==> Matrix[index] == Coord(-c.x, -c.y);
      MatrixInjective(index, Rot(m, 4));
    }
  }

  /** The position of a neighbour move in `Matrix`. */
  function MoveIndex(c: Coord): int
  {
    if c == Coord(-1, -1) then 0 else if c == Coord(0, -1) then 1
    else if c == Coord(1, -1) then 2 else if c == Coord(1, 0) then 3
    else if c == Coord(1, 1) then 4 else if c == Coord(0, 1) then 5
    else if c == Coord(-1, 1) then 6 else 7
  }

  /** No move occurs twice in `Matrix`. */
  lemma MatrixInjective(i: int, j: int)
    requires 0 <= i < 8 && 0 <= j < 8
    ensures Matrix[i] == Matrix[j] <==> i == j
  {
    MoveIndexOf(i);
    MoveIndexOf(j);
  }

  lemma MoveIndexOf(i: int)
    requires 0 <= i < 8
    ensures MoveIndex(Matrix[i]) == i
  {
    if i == 0 {
    } else if i == 1 {
    } else if i == 2 {
    } else if i == 3 {
    } else if i == 4 {
    } else if i == 5 {
    } else if i == 6 {
    } else {
    }
  }

  /** Four clockwise steps on is the opposite move. */
  lemma MatrixOpposite(m: int)
    requires 0 <= m < 8
    ensures Matrix[Rot(m, 4)] == Coord(-Matrix[m].x, -Matrix[m].y)
  {
    if m == 0 {
    } else if m == 1 {
    } else if m == 2 {
    } else if m == 3 {
    } else if m == 4 {
    } else if m == 5 {
    } else if m == 6 {
    } else {
    }
  }

  // ----- absurdDiagonal -----

  /** Sample i differs from sample i - 1 by more than DiagError. */
  predicate Jump(diags: seq<int>, i: int)
    requires 1 <= i < |diags|
  {
    diags[i] > diags[i - 1] + DiagError || diags[i] < diags[i - 1] - DiagError
  }

  /** The loop of `absurdDiagonal` from sample i on. */
  function JumpFrom(diags: seq<int>, i: nat): bool
    requires 1 <= i
    decreases |diags| - i
  {
    if i >= |diags| then false else if Jump(diags, i) then true else JumpFrom(diags, i + 1)
  }

  /** `Box::absurdDiagonal`: fewer than two samples are absurd; otherwise a
      jump between consecutive samples is. */
  function AbsurdDiagonal(diags: seq<int>): bool
  {
    if |diags| < 2 then true else JumpFrom(diags, 1)
  }

  lemma {:induction false} JumpFromFinds(diags: seq<int>, i: nat)
    requires 1 <= i
    ensures JumpFrom(diags, i) <==> exists k :: i <= k < |diags| && Abs(diags[k] - diags[k - 1]) > DiagError
    decreases |diags| - i
  {
    if i < |diags| {
      JumpFromFinds(diags, i + 1);
      if Abs(diags[i] - diags[i - 1]) > DiagError {
        assert Jump(diags, i);
      }
    }
  }

  /** The samples are absurd exactly when there are fewer than two or some
      consecutive pair differs by more than DiagError. */
  lemma AbsurdDiagonalIff(diags: seq<int>)
    ensures AbsurdDiagonal(diags) <==>
      |diags| < 2 || exists k :: 1 <= k < |diags| && Abs(diags[k] - diags[k - 1]) > DiagError
  {
    if |diags| >= 2 {
      JumpFromFinds(diags, 1);
    }
  }

  // ----- diagonal learning -----

  /** One step of the diagonal learning in `Box::valid`, on a (diag, diags)
      pair: nothing changes once a diagonal is adopted; below DiagCount
      samples the new one is added; with DiagCount samples they are either
      discarded as absurd or the new diagonal is adopted. */
  function LearnStep(diag: int, diags: seq<int>, realDiag: int): (int, seq<int>)
  {
    if diag != 0 then (diag, diags)
    else if |diags| < DiagCount then (diag, diags + [realDiag])
    else if AbsurdDiagonal(diags) then (diag, [])
    else (realDiag, diags)
  }

  /** The (diag, diags) state after learning from each sample in turn,
      starting from a fresh BoxData. */
  function Learned(samples: seq<int>): (int, seq<int>)
  {
    if |samples| == 0 then (0, [])
    else
      var prev := Learned(samples[..|samples| - 1]);
      LearnStep(prev.0, prev.1, samples[|samples| - 1])
  }

  /** At most DiagCount samples are kept, and an adopted diagonal never
      changes. */
  lemma LearnStepKeeps(diag: int, diags: seq<int>, realDiag: int)
    requires |diags| <= DiagCount
    ensures |LearnStep(diag, diags, realDiag).1| <= DiagCount
    ensures diag != 0 ==> LearnStep(diag, diags, realDiag) == (diag, diags)
  {
  }

  /** The first DiagCount samples are all collected. */
  lemma {:induction false} LearnedCollects(samples: seq<int>)
    requires |samples| <= DiagCount
    ensures Learned(samples) == (0, samples)
  {
    if |samples| > 0 {
      LearnedCollects(samples[..|samples| - 1]);
      assert samples[..|samples| - 1] + [samples[|samples| - 1]] == samples;
    }
  }

  /** From a fresh BoxData: when the first DiagCount samples have no jump
      between neighbours, the next sample is adopted as the diagonal; when
      they do, they are discarded and learning starts over. */
  lemma LearnedAdopts(samples: seq<int>)
    requires |samples| == DiagCount + 1
    ensures !AbsurdDiagonal(samples[..DiagCount]) ==> Learned(samples) == (samples[DiagCount], samples[..DiagCount])
    ensures AbsurdDiagonal(samples[..DiagCount]) ==> Learned(samples) == (0, [])
  {
    LearnedCollects(samples[..DiagCount]);
    assert samples[..|samples| - 1] == samples[..DiagCount];
  }

  /** `BoxData`: the per-image state of box detection. */
  class BoxData {
    /** Approximate width of a box. */
    var width: int
    /** The adopted diagonal, or 0 while it is being learned. */
    var diag: int
    /** The diagonal samples gathered so far. */
    var diags: seq<int>

    ghost predicate Valid()
      reads this
    {
      |diags| <= DiagCount
    }

    /** `BoxData()`: width and diagonal 0, no samples. */
    constructor ()
      ensures Valid() && width == 0 && diag == 0 && diags == []
    {
      width := 0;
      diag := 0;
      diags := [];
    }

    /** The diagonal-learning branch of `Box::valid` for a box found valid
        with diagonal realDiag. */
    method LearnDiagonal(realDiag: int)
      requires Valid()
      modifies this
      ensures Valid() && width == old(width)
      ensures (diag, diags) == LearnStep(old(diag), old(diags), realDiag)
      ensures old(diag) != 0 ==> diag == old(diag) && diags == old(diags)
    {
      LearnStepKeeps(diag, diags, realDiag);
      if diag == 0 {
        if |diags| < DiagCount {
          diags := diags + [realDiag];
        } else {
          if AbsurdDiagonal(diags) {
            diags := [];
          } else {
            diag := realDiag;
          }
        }
      }
    }
  }
}
