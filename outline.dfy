/** Outline tracing (outline.cpp): starting just above a pixel of an object,
    walk clockwise around the object's edge through the pixels next to it,
    backing up along the path walked so far at dead ends, until the walk is
    back at its start or gives up.

    The labels come from the connected-component labelling; here they are a
    total function `labelAt` from coordinates to labels. */
module Outline {
  import opened Data
  import Blobs
  import opened Box

  // ----- findIndex -----

  /** The neighbour before neighbour i, wrapping 0 back to 7. */
  function Back(i: int): (b: int)
    requires 0 <= i < 8
    ensures 0 <= b < 8 && Rot(b, 1) == i
  {
    if i == 0 then 7 else i - 1
  }

  /** Neighbour i of p is in the object, while the neighbour before it is
      outside the object and not yet on the path. */
  predicate Candidate(labelAt: Coord -> int, lab: int, path: seq<Coord>, p: Coord, i: int)
    requires 0 <= i < 8
  {
    && labelAt(Add(p, Matrix[i])) == lab
    && labelAt(Add(p, Matrix[Back(i)])) != lab
    && Add(p, Matrix[Back(i)]) !in path
  }

  /** The first candidate at or after neighbour i, or 8. */
  function FirstCandidate(labelAt: Coord -> int, lab: int, path: seq<Coord>, p: Coord, i: nat): (c: nat)
    requires i <= 8
    ensures i <= c <= 8
    ensures c < 8 ==> Candidate(labelAt, lab, path, p, c)
    ensures forall j :: i <= j < c ==> !Candidate(labelAt, lab, path, p, j)
    decreases 8 - i
  {
    if i == 8 || Candidate(labelAt, lab, path, p, i) then i
    else FirstCandidate(labelAt, lab, path, p, i + 1)
  }

  /** What `findIndex(p)` returns: the neighbour just before the first
      candidate, or -1. */
  function IndexSpec(labelAt: Coord -> int, lab: int, path: seq<Coord>, p: Coord): (r: int)
    ensures -1 <= r < 8
  {
    var c := FirstCandidate(labelAt, lab, path, p, 0);
    if c == 8 then -1 else Back(c)
  }

  /** `findIndex` gives -1 exactly when no neighbour is a candidate;
      otherwise a neighbour outside the object and not yet on the path whose
      clockwise successor is in the object. */
  lemma IndexSpecMeaning(labelAt: Coord -> int, lab: int, path: seq<Coord>, p: Coord)
    ensures var r := IndexSpec(labelAt, lab, path, p);
      && (r == -1 <==> forall i :: 0 <= i < 8 ==> !Candidate(labelAt, lab, path, p, i))
      && (r != -1 ==> && labelAt(Add(p, Matrix[r])) != lab
                      && Add(p, Matrix[r]) !in path
                      && labelAt(Add(p, Matrix[Rot(r, 1)])) == lab)
  {
  }

  /** The backtracking of `findEdge`, for any way `indexOf` of finding an
      index at a point: try p, then the path entries from position
      `pathIndex` down to position 1; the first tried point whose index is
      not -1, or the last tried point with -1. */
  function BacktrackFrom(indexOf: Coord -> int, path: seq<Coord>, p: Coord, pathIndex: nat): (e: (Coord, int))
    requires pathIndex < |path| || pathIndex == 0
    ensures e.1 == indexOf(e.0)
    decreases pathIndex
  {
    var index := indexOf(p);
    if index != -1 || pathIndex == 0 then (p, index)
    else BacktrackFrom(indexOf, path, path[pathIndex], pathIndex - 1)
  }

  /** Backtracking from position pathIndex returns p if p has an index;
      otherwise the latest path entry at or below pathIndex (and above 0)
      with an index; and -1 exactly when none of them has one. */
  lemma {:induction false} BacktrackFromOrder(indexOf: Coord -> int, path: seq<Coord>, p: Coord, pathIndex: nat)
    requires pathIndex < |path| || pathIndex == 0
    ensures var e := BacktrackFrom(indexOf, path, p, pathIndex);
      && (indexOf(p) != -1 ==> e.0 == p)
      && (indexOf(p) == -1 && e.1 != -1 ==>
            exists k :: 1 <= k <= pathIndex && e.0 == path[k]
                        && forall k' :: k < k' <= pathIndex ==> indexOf(path[k']) == -1)
      && (e.1 == -1 <==> indexOf(p) == -1 && forall k :: 1 <= k <= pathIndex ==> indexOf(path[k]) == -1)
    decreases pathIndex
  {
    if indexOf(p) == -1 && pathIndex > 0 {
      BacktrackFromOrder(indexOf, path, path[pathIndex], pathIndex - 1);
      var e := BacktrackFrom(indexOf, path, p, pathIndex);
      if e.1 != -1 && indexOf(path[pathIndex]) == -1 {
        var k :| 1 <= k <= pathIndex - 1 && e.0 == path[k]
                 && forall k' :: k < k' <= pathIndex - 1 ==> indexOf(path[k']) == -1;
        assert forall k' :: k < k' <= pathIndex ==> indexOf(path[k']) == -1;
      }
    }
  }

  /** `findEdge(p)`: p first, then the path from its last entry back to its
      second, each with the index `findIndex` finds there; the first entry is
      never retried. */
  function Backtrack(labelAt: Coord -> int, lab: int, path: seq<Coord>, p: Coord): (Coord, int)
  {
    BacktrackFrom(IndexOf(labelAt, lab, path), path, p, if |path| > 0 then |path| - 1 else 0)
  }

  /** `findIndex` as a function of the point. */
  function IndexOf(labelAt: Coord -> int, lab: int, path: seq<Coord>): (indexOf: Coord -> int)
    ensures forall q :: indexOf(q) == IndexSpec(labelAt, lab, path, q)
  {
    q => IndexSpec(labelAt, lab, path, q)
  }

  /** Backtracking comes back with p or a path entry after the first, whose
      own index it returns; it gives -1 exactly when p and every path entry
      after the first give -1 on their own. */
  lemma BacktrackTriesAllButFirst(labelAt: Coord -> int, lab: int, path: seq<Coord>, p: Coord)
    ensures var e := Backtrack(labelAt, lab, path, p);
      && e.1 == IndexSpec(labelAt, lab, path, e.0)
      && (e.1 != -1 ==> e.0 == p || e.0 in path[1..])
      && (e.1 == -1 <==> IndexSpec(labelAt, lab, path, p) == -1
                         && forall k :: 1 <= k < |path| ==> IndexSpec(labelAt, lab, path, path[k]) == -1)
  {
    var indexOf := IndexOf(labelAt, lab, path);
    var pathIndex := if |path| > 0 then |path| - 1 else 0;
    BacktrackFromOrder(indexOf, path, p, pathIndex);
    var e := Backtrack(labelAt, lab, path, p);
    if e.1 != -1 && e.0 != p {
      var k :| 1 <= k <= pathIndex && e.0 == path[k];
      assert path[1..][k - 1] == path[k];
    }
  }

  // ----- the walk of the constructor -----

  /** One step of the walk: from the path so far and the current position,
      the point to move from and the neighbour index to move along (-1 for
      no move).  The constructor steps with `findEdge`. */
  type Step = (seq<Coord>, Coord) -> (Coord, int)

  /** The move a step makes: to the chosen neighbour of the chosen point. */
  function Moved(edge: (Coord, int)): Coord
    requires 0 <= edge.1 < 8
  {
    Add(edge.0, Matrix[edge.1])
  }

  /** The loop of the `Outline` constructor from the state (path, position,
      iterations): the final path, and whether the walk came back to `end`. */
  function Walk(step: Step, end: Coord, maxLength: int, path: seq<Coord>, position: Coord, iterations: int): (seq<Coord>, bool)
    requires iterations >= 0
    requires forall pa, po :: -1 <= step(pa, po).1 < 8
    decreases maxLength - iterations + 1
  {
    var edge := step(path, position);
    if edge.1 == -1 then (path, false)
    else
      var next := Moved(edge);
      if next == end then (path + [next], true)
      else if iterations + 1 > maxLength then (path + [next], false)
      else Walk(step, end, maxLength, path + [next], next, iterations + 1)
  }

  /** No coordinate occurs twice. */
  predicate Distinct(s: seq<Coord>)
  {
    forall i, j :: 0 <= i < j < |s| ==> s[i] != s[j]
  }

  /** A step that only moves to pixels off the path and outside the object
      keeps the path free of repeats and outside the object. */
  lemma {:induction false} WalkDistinct(step: Step, labelAt: Coord -> int, lab: int, end: Coord, maxLength: int,
                                        path: seq<Coord>, position: Coord, iterations: int)
    requires iterations >= 0
    requires forall pa, po :: -1 <= step(pa, po).1 < 8
    requires forall pa, po :: step(pa, po).1 != -1 ==> Moved(step(pa, po)) !in pa && labelAt(Moved(step(pa, po))) != lab
    requires Distinct(path) && forall k :: 0 <= k < |path| ==> labelAt(path[k]) != lab
    ensures var path' := Walk(step, end, maxLength, path, position, iterations).0;
      Distinct(path') && forall k :: 0 <= k < |path'| ==> labelAt(path'[k]) != lab
    decreases maxLength - iterations + 1
  {
    var edge := step(path, position);
    if edge.1 != -1 {
      var next := Moved(edge);
      var path1 := path + [next];
      assert Distinct(path1);
      if next != end && iterations + 1 <= maxLength {
        WalkDistinct(step, labelAt, lab, end, maxLength, path1, next, iterations + 1);
      }
    }
  }

  /** The walk extends the path by at most one pixel more than the
      iterations it has left; it reports success exactly when it stopped on
      `end`, which no earlier new pixel is. */
  lemma {:induction false} WalkEnds(step: Step, end: Coord, maxLength: int, path: seq<Coord>, position: Coord, iterations: int)
    requires iterations >= 0
    requires forall pa, po :: -1 <= step(pa, po).1 < 8
    ensures var (path', found) := Walk(step, end, maxLength, path, position, iterations);
      && |path| <= |path'| <= |path| + (if maxLength > iterations then maxLength - iterations else 0) + 1
      && path'[..|path|] == path
      && (forall k :: |path| <= k < |path'| - 1 ==> path'[k] != end)
      && (found <==> |path'| > |path| && path'[|path'| - 1] == end)
    decreases maxLength - iterations + 1
  {
    var edge := step(path, position);
    if edge.1 != -1 {
      var next := Moved(edge);
      var path1 := path + [next];
      if next != end && iterations + 1 <= maxLength {
        WalkEnds(step, end, maxLength, path1, next, iterations + 1);
        var path' := Walk(step, end, maxLength, path1, next, iterations + 1).0;
        assert path'[..|path1|][..|path|] == path'[..|path|];
        assert path'[|path|] == path1[|path|] == next;
      }
    }
  }

  /** The step of the constructor: `findEdge` at the current position. */
  function FindEdgeStep(labelAt: Coord -> int, lab: int): (step: Step)
    ensures forall pa, po :: step(pa, po) == Backtrack(labelAt, lab, pa, po)
    ensures forall pa, po :: -1 <= step(pa, po).1 < 8
  {
    (pa, po) => Backtrack(labelAt, lab, pa, po)
  }

  /** `findEdge` only moves to a pixel outside the object that is not on
      the path yet. */
  lemma FindEdgeMovesOutward(labelAt: Coord -> int, lab: int, path: seq<Coord>, position: Coord)
    ensures var edge := Backtrack(labelAt, lab, path, position);
      edge.1 != -1 ==> 0 <= edge.1 < 8 && Moved(edge) !in path && labelAt(Moved(edge)) != lab
  {
    var edge := Backtrack(labelAt, lab, path, position);
    BacktrackTriesAllButFirst(labelAt, lab, path, position);
    IndexSpecMeaning(labelAt, lab, path, edge.0);
  }

  /** The state of an `Outline` after construction from `point`. */
  function Traced(labelAt: Coord -> int, point: Coord, maxLength: int): (seq<Coord>, bool)
  {
    var start := Coord(point.x, point.y - 1);
    if labelAt(point) == Blobs.DefaultLabel then ([], false)
    else Walk(FindEdgeStep(labelAt, labelAt(point)), start, maxLength, [], start, 0)
  }

  /** A traced outline: empty and not good for a background point; at most
      maxLength + 1 pixels; all distinct and outside the object; good
      exactly when the last pixel is the start (x, y - 1), which no earlier
      pixel is. */
  lemma TracedFacts(labelAt: Coord -> int, point: Coord, maxLength: int)
    ensures var (path, good) := Traced(labelAt, point, maxLength);
      && (labelAt(point) == Blobs.DefaultLabel ==> path == [] && !good)
      && |path| <= (if maxLength > 0 then maxLength else 0) + 1
      && Distinct(path)
      && (forall k :: 0 <= k < |path| ==> labelAt(path[k]) != labelAt(point))
      && (forall k :: 0 <= k < |path| - 1 ==> path[k] != Coord(point.x, point.y - 1))
      && (good <==> |path| > 0 && path[|path| - 1] == Coord(point.x, point.y - 1))
  {
    TracedOutward(labelAt, point, maxLength);
    TracedEnds(labelAt, point, maxLength);
  }

  lemma TracedOutward(labelAt: Coord -> int, point: Coord, maxLength: int)
    ensures var path := Traced(labelAt, point, maxLength).0;
      Distinct(path) && forall k :: 0 <= k < |path| ==> labelAt(path[k]) != labelAt(point)
  {
    var start := Coord(point.x, point.y - 1);
    var lab := labelAt(point);
    if lab != Blobs.DefaultLabel {
      var step := FindEdgeStep(labelAt, lab);
      forall pa, po ensures step(pa, po).1 != -1 ==> Moved(step(pa, po)) !in pa && labelAt(Moved(step(pa, po))) != lab {
        FindEdgeMovesOutward(labelAt, lab, pa, po);
      }
      WalkDistinct(step, labelAt, lab, start, maxLength, [], start, 0);
    }
  }

  lemma TracedEnds(labelAt: Coord -> int, point: Coord, maxLength: int)
    ensures var (path, good) := Traced(labelAt, point, maxLength);
      && |path| <= (if maxLength > 0 then maxLength else 0) + 1
      && (forall k :: 0 <= k < |path| - 1 ==> path[k] != Coord(point.x, point.y - 1))
      && (good <==> |path| > 0 && path[|path| - 1] == Coord(point.x, point.y - 1))
  {
    var start := Coord(point.x, point.y - 1);
    var lab := labelAt(point);
    if lab != Blobs.DefaultLabel {
      WalkEnds(FindEdgeStep(labelAt, lab), start, maxLength, [], start, 0);
    }
  }

  /** `Outline`: the traced edge of one object. */
  class Outline {
    /** The labels of the connected-component labelling. */
    const labelAt: Coord -> int
    /** Label of the object being outlined. */
    var lab: int
    /** The pixels walked, in order. */
    var path: seq<Coord>
    /** Whether the walk came back to its start. */
    var found: bool

    /** `good()`. */
    function Good(): bool
      reads this
    {
      found
    }

    /** `points()`. */
    function Points(): seq<Coord>
      reads this
    {
      path
    }

    /** `Outline(img, blobs, point, max_length)`: nothing for a background
        point; otherwise the walk from (x, y - 1) until it is back there, it
        runs out of places to go, or it has taken more than max_length
        steps. */
    constructor (labelAt: Coord -> int, point: Coord, maxLength: int)
      ensures this.labelAt == labelAt && lab == labelAt(point)
      ensures (path, found) == Traced(labelAt, point, maxLength)
    {
      this.labelAt := labelAt;
      lab := labelAt(point);
      path := [];
      found := false;
      new;
      if lab != Blobs.DefaultLabel {
        var position := Coord(point.x, point.y - 1);
        var end := position;
        var iterations := 0;
        var gaveUp := false;
        while true
          invariant iterations >= 0 && this.labelAt == labelAt && lab == labelAt(point) && !found
          invariant Walk(FindEdgeStep(labelAt, lab), end, maxLength, path, position, iterations)
                    == Traced(labelAt, point, maxLength)
          decreases maxLength - iterations + 1
        {
          var point', index := FindEdge(position);
          if index == -1 {
            gaveUp := true;
            break;
          }
          position := Moved((point', index));
          path := path + [position];
          if position == end {
            break;
          }
          iterations := iterations + 1;
          if iterations > maxLength {
            gaveUp := true;
            break;
          }
        }
        found := !gaveUp;
      }
    }

    /** `findIndex(p)`: scans the neighbours clockwise for the first
        candidate and returns the neighbour before it, or -1. */
    method FindIndex(p: Coord) returns (result: int)
      ensures result == IndexSpec(labelAt, lab, path, p)
    {
      result := -1;
      var i := 0;
      while i < 8
        invariant 0 <= i <= 8 && result == -1
        invariant FirstCandidate(labelAt, lab, path, p, 0) == FirstCandidate(labelAt, lab, path, p, i)
      {
        var back := if i == 0 then 7 else i - 1;
        var current := Add(p, Matrix[i]);
        var previous := Add(p, Matrix[back]);
        if labelAt(current) == lab && labelAt(previous) != lab && previous !in path {
          result := back;
          break;
        }
        i := i + 1;
      }
    }

    /** `findEdge(p)`: tries p, then steps back along the path until a point
        with somewhere new to go is found or position 1 has been tried. */
    method FindEdge(p: Coord) returns (point: Coord, index: int)
      ensures (point, index) == Backtrack(labelAt, lab, path, p)
    {
      var walked := path;
      ghost var indexOf := IndexOf(labelAt, lab, walked);
      point := p;
      var pathIndex := if |walked| > 0 then |walked| - 1 else 0;
      while true
        invariant 0 <= pathIndex && (pathIndex < |walked| || pathIndex == 0)
        invariant BacktrackFrom(indexOf, walked, point, pathIndex) == Backtrack(labelAt, lab, walked, p)
        decreases pathIndex
      {
        index := FindIndex(point);
        if index != -1 || pathIndex == 0 {
          return;
        }
        point := walked[pathIndex];
        pathIndex := pathIndex - 1;
      }
    }
  }
}
