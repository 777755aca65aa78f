/** Reading the student ID (read.cpp): the check that the ID boxes form a
    vertical column, and the assembly of the ID from the bubbles found
    filled on each box's row.

    Which bubbles on a row are filled (`findFilled`, driven by the
    floating-point `answerBlack` threshold) is an oracle here: `filledAt(i)`
    is the list of x positions found filled on the row of box i. */
module Read {
  import opened Wrappers
  import opened Data
  import opened MapUtils
  import opened MathUtils
  import opened Options

  /** `DefaultID`: the ID of a form whose ID could not be read. */
  const DefaultID: int := -1

  // ----- vertical -----

  /** Box i has drifted more than MaxError sideways from box i - 1. */
  predicate Skewed(boxes: seq<Coord>, i: int)
    requires 1 <= i < |boxes|
  {
    boxes[i].x > boxes[i - 1].x + MaxError || boxes[i].x < boxes[i - 1].x - MaxError
  }

  /** `vertical(boxes, start_box, end_box)`: scans boxes start_box up to
      before end_box (and before the end of the list), comparing each with
      the one before it.  The scan reads box start_box - 1, so start_box must
      be at least 1. */
  function Vertical(boxes: seq<Coord>, startBox: nat, endBox: nat): bool
    requires startBox >= 1
    decreases |boxes| - startBox
  {
    if startBox >= |boxes| || startBox >= endBox then true
    else if Skewed(boxes, startBox) then false
    else Vertical(boxes, startBox + 1, endBox)
  }

  /** The boxes are vertical exactly when no box in the scanned range is
      more than MaxError to either side of the one before it; an empty range
      is vertical. */
  lemma {:induction false} VerticalIff(boxes: seq<Coord>, startBox: nat, endBox: nat)
    requires startBox >= 1
    ensures Vertical(boxes, startBox, endBox) <==>
      forall i :: startBox <= i < |boxes| && i < endBox ==> Abs(boxes[i].x - boxes[i - 1].x) <= MaxError
    decreases |boxes| - startBox
  {
    if startBox < |boxes| && startBox < endBox {
      VerticalIff(boxes, startBox + 1, endBox);
    }
  }

  // ----- the filled map -----

  /** `filled[pos] = v` for each position in turn. */
  function PutAll(m: seq<(int, int)>, positions: seq<int>, v: int): seq<(int, int)>
  {
    if |positions| == 0 then m
    else Put(PutAll(m, positions[..|positions| - 1], v), positions[|positions| - 1], v)
  }

  /** The `filled` map after the rows of boxes lo up to hi - 1: row i records
      digit i - 1 at each position found filled on it. */
  function RowsFilled(filledAt: nat -> seq<int>, lo: nat, hi: int): seq<(int, int)>
    decreases hi - lo
  {
    if hi <= lo then [] else PutAll(RowsFilled(filledAt, lo, hi - 1), filledAt(hi - 1), hi - 2)
  }

  /** The last row among lo up to hi - 1 on which x was found filled. */
  function LastRow(filledAt: nat -> seq<int>, lo: nat, hi: int, x: int): (r: Option<nat>)
    ensures r.Some? ==> lo <= r.value < hi && x in filledAt(r.value)
                        && forall i :: r.value < i < hi ==> x !in filledAt(i)
    ensures r.None? ==> forall i :: lo <= i < hi ==> x !in filledAt(i)
    decreases hi - lo
  {
    if hi <= lo then None
    else if x in filledAt(hi - 1) then Some(hi - 1)
    else LastRow(filledAt, lo, hi - 1, x)
  }

  lemma {:induction false} PutAllLookup(m: seq<(int, int)>, positions: seq<int>, v: int, x: int)
    ensures Lookup(PutAll(m, positions, v), x) == if x in positions then Some(v) else Lookup(m, x)
    decreases |positions|
  {
    if |positions| > 0 {
      var init := positions[..|positions| - 1];
      PutAllLookup(m, init, v, x);
      PutLookup(PutAll(m, init, v), positions[|positions| - 1], v, x);
      assert positions == init + [positions[|positions| - 1]];
    }
  }

  /** Every value of the association list m lies between lo and hi. */
  predicate ValuesIn(m: seq<(int, int)>, lo: int, hi: int)
  {
    forall k :: 0 <= k < |m| ==> lo <= m[k].1 <= hi
  }

  lemma ValuesWiden(m: seq<(int, int)>, lo: int, hi: int, hi': int)
    requires ValuesIn(m, lo, hi) && hi <= hi'
    ensures ValuesIn(m, lo, hi')
  {
  }

  lemma {:induction false} PutAllKeeps(m: seq<(int, int)>, positions: seq<int>, v: int, lo: int, hi: int)
    requires KeysIncreasing(m) && ValuesIn(m, lo, hi)
    requires lo <= v <= hi
    ensures KeysIncreasing(PutAll(m, positions, v))
    ensures ValuesIn(PutAll(m, positions, v), lo, hi)
    decreases |positions|
  {
    if |positions| > 0 {
      var init := positions[..|positions| - 1];
      PutAllKeeps(m, init, v, lo, hi);
      PutKeysIncreasing(PutAll(m, init, v), positions[|positions| - 1], v);
      PutValues(PutAll(m, init, v), positions[|positions| - 1], v, lo, hi);
    }
  }

  lemma {:induction false} PutValues(m: seq<(int, int)>, k: int, v: int, lo: int, hi: int)
    requires ValuesIn(m, lo, hi)
    requires lo <= v <= hi
    ensures ValuesIn(Put(m, k, v), lo, hi)
    decreases |m|
  {
    if |m| > 0 && m[0].0 != k && m[0].0 < k {
      PutValues(m[1..], k, v, lo, hi);
    }
  }

  /** The map is ordered by position and holds digits between lo - 1 and
      hi - 2. */
  lemma {:induction false} RowsFilledOrdered(filledAt: nat -> seq<int>, lo: nat, hi: int)
    ensures KeysIncreasing(RowsFilled(filledAt, lo, hi))
    ensures ValuesIn(RowsFilled(filledAt, lo, hi), lo - 1, hi - 2)
    decreases hi - lo
  {
    if hi > lo {
      RowsFilledOrdered(filledAt, lo, hi - 1);
      var m := RowsFilled(filledAt, lo, hi - 1);
      ValuesWiden(m, lo - 1, hi - 3, hi - 2);
      var row: nat := hi - 1;
      PutAllKeeps(m, filledAt(row), hi - 2, lo - 1, hi - 2);
    }
  }

  /** At each position the map holds the digit of the last row on which that
      position was found filled: a later row overwrites an earlier one. */
  lemma {:induction false} RowsFilledLookup(filledAt: nat -> seq<int>, lo: nat, hi: int, x: int)
    ensures LastRow(filledAt, lo, hi, x).Some? ==>
      Lookup(RowsFilled(filledAt, lo, hi), x) == Some(LastRow(filledAt, lo, hi, x).value - 1)
    ensures LastRow(filledAt, lo, hi, x).None? ==> Lookup(RowsFilled(filledAt, lo, hi), x) == None
    decreases hi - lo
  {
    if hi > lo {
      var row: nat := hi - 1;
      var m := RowsFilled(filledAt, lo, row);
      RowsFilledLookup(filledAt, lo, row, x);
      PutAllLookup(m, filledAt(row), hi - 2, x);
      assert LastRow(filledAt, lo, hi, x) == if x in filledAt(row) then Some(row) else LastRow(filledAt, lo, row, x);
      assert Lookup(RowsFilled(filledAt, lo, hi), x) == Lookup(PutAll(m, filledAt(row), hi - 2), x);
    }
  }

  // ----- the ID number -----

  function Pow10(n: nat): (p: nat)
    ensures p >= 1
  {
    if n == 0 then 1 else 10 * Pow10(n - 1)
  }

  /** The number with the given digits, most significant first. */
  function DigitsValue(ds: seq<int>): int
  {
    if |ds| == 0 then 0 else DigitsValue(ds[..|ds| - 1]) * 10 + ds[|ds| - 1]
  }

  predicate AreDigits(ds: seq<int>)
  {
    forall k :: 0 <= k < |ds| ==> 0 <= ds[k] <= 9
  }

  /** The decimal text of a digit list. */
  function DigitString(ds: seq<int>): (s: string)
    requires AreDigits(ds)
    ensures |s| == |ds| && AllDigits(s)
  {
    if |ds| == 0 then "" else DigitString(ds[..|ds| - 1]) + [DigitChar(ds[|ds| - 1])]
  }

  /** A digit list's value is what its decimal text reads as. */
  lemma {:induction false} DigitsValueIsDecimal(ds: seq<int>)
    requires AreDigits(ds)
    ensures DigitsValue(ds) == ParseNat(DigitString(ds))
    decreases |ds|
  {
    if |ds| > 0 {
      var init := ds[..|ds| - 1];
      DigitsValueIsDecimal(init);
      var s := DigitString(ds);
      assert s[..|s| - 1] == DigitString(init);
    }
  }

  /** What `findID` returns: 0 when there are fewer than IdEnd boxes or they
      are not vertical; otherwise the recorded digits read in increasing x
      order as one decimal number. */
  function IdSpec(boxes: seq<Coord>, filledAt: nat -> seq<int>): int
  {
    if |boxes| < IdEnd then 0
    else if !Vertical(boxes, IdStart, IdEnd) then 0
    else DigitsValue(Values(RowsFilled(filledAt, IdStart - 1, IdEnd)))
  }

  /** One more digit: adding digit k times 10^(n-k-1) to the value of the
      first k digits times 10^(n-k) gives the value of the first k + 1 digits
      times 10^(n-k-1). */
  lemma DigitStep(ds: seq<int>, k: nat)
    requires k < |ds|
    ensures DigitsValue(ds[..k]) * Pow10(|ds| - k) + ds[k] * Pow10(|ds| - k - 1)
         == DigitsValue(ds[..k + 1]) * Pow10(|ds| - k - 1)
  {
    assert ds[..k + 1][..k] == ds[..k];
    var a, d, p := DigitsValue(ds[..k]), ds[k], Pow10(|ds| - k - 1);
    assert Pow10(|ds| - k) == 10 * p;
    assert a * (10 * p) + d * p == (a * 10 + d) * p;
  }

  /** `findID`: the guard clauses, then the loop recording a digit for each
      filled position on each ID box row, then the loop adding up the
      digits with their place values. */
  method FindID(boxes: seq<Coord>, filledAt: nat -> seq<int>) returns (id: int)
    ensures id == IdSpec(boxes, filledAt)
  {
    id := 0;
    if |boxes| < IdEnd {
      return;
    }
    if !Vertical(boxes, IdStart, IdEnd) {
      return;
    }
    var filled := RecordFilled(filledAt, IdStart - 1, IdEnd, |boxes|);
    id := PlaceValues(filled);
  }

  /** The first loop of `findID`: for each box row from lo up to before hi
      (and before the last box), `filled[pos] = i - 1` for each filled
      position pos on row i. */
  method RecordFilled(filledAt: nat -> seq<int>, lo: nat, hi: int, boxCount: int) returns (filled: seq<(int, int)>)
    requires lo <= hi <= boxCount
    ensures filled == RowsFilled(filledAt, lo, hi)
  {
    filled := [];
    var i := lo;
    while i < hi && i < boxCount
      invariant lo <= i <= hi
      invariant filled == RowsFilled(filledAt, lo, i)
    {
      var position := filledAt(i);
      var j := 0;
      while j < |position|
        invariant 0 <= j <= |position|
        invariant filled == PutAll(RowsFilled(filledAt, lo, i), position[..j], i - 1)
      {
        assert position[..j + 1][..j] == position[..j];
        filled := Put(filled, position[j], i - 1);
        j := j + 1;
      }
      assert position[..|position|] == position;
      i := i + 1;
    }
  }

  /** The second loop of `findID`: walks the map in key order with the
      exponent counting down from size - 1, adding value * 10^exponent. */
  method PlaceValues(filled: seq<(int, int)>) returns (id: int)
    ensures id == DigitsValue(Values(filled))
  {
    id := 0;
    ghost var ds := Values(filled);
    var n := |filled|;
    var e := n - 1;
    var k := 0;
    while k < n
      invariant 0 <= k <= n && e == n - 1 - k
      invariant id == DigitsValue(ds[..k]) * Pow10(n - k)
    {
      assert |ds| == n && ds[k] == filled[k].1;
      DigitStep(ds, k);
      id := id + filled[k].1 * Pow10(e);
      k := k + 1;
      e := e - 1;
    }
    assert ds[..n] == ds;
  }

  /** The ID read from vertical boxes: the positions found filled, in
      increasing x order, each holding the digit (0 for box 2, up to 9 for
      box 11) of the last row on which it was found, read as decimal text. */
  lemma FindIDReadsDigits(boxes: seq<Coord>, filledAt: nat -> seq<int>, x: int)
    ensures |boxes| < IdEnd || !Vertical(boxes, IdStart, IdEnd) ==> IdSpec(boxes, filledAt) == 0
    ensures |boxes| >= IdEnd && Vertical(boxes, IdStart, IdEnd) ==>
      var filled := RowsFilled(filledAt, IdStart - 1, IdEnd);
      && KeysIncreasing(filled)
      && AreDigits(Values(filled))
      && IdSpec(boxes, filledAt) == ParseNat(DigitString(Values(filled)))
      && Lookup(filled, x) == (var r := LastRow(filledAt, 1, 11, x); if r.Some? then Some(r.value - 1) else None)
  {
    var filled := RowsFilled(filledAt, IdStart - 1, IdEnd);
    RowsFilledOrdered(filledAt, IdStart - 1, IdEnd);
    RowsFilledLookup(filledAt, IdStart - 1, IdEnd, x);
    DigitsValueIsDecimal(Values(filled));
  }
}
