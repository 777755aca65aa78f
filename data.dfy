/** Pixel coordinates (data.h, data.cpp): the point type every other part of
    the scanner uses, its equality, its scan-order comparison and the text
    form "(x,y)" it is printed in. */
module Data {
  import opened Wrappers

  /** A point in an image; x grows to the right, y grows downward.
      `Coord()` in the source is the origin (0,0). */
  datatype Coord = Coord(x: int, y: int)

  /** An `unsigned char` gray value of one pixel. */
  type Shade = s: int | 0 <= s < 256

  /** The default-constructed Coord. */
  const Origin: Coord := Coord(0, 0)

  /** `operator+`: componentwise sum, used to step to a neighbour. */
  function Add(a: Coord, b: Coord): Coord
  {
    Coord(a.x + b.x, a.y + b.y)
  }

  /** `operator==`: both components agree. */
  predicate Eq(a: Coord, b: Coord)
    ensures Eq(a, b) <==> a == b
  {
    a.x == b.x && a.y == b.y
  }

  /** `operator!=`: the negation of `==`. */
  predicate NotEq(a: Coord, b: Coord)
    ensures NotEq(a, b) <==> !Eq(a, b)
  {
    !(a.x == b.x && a.y == b.y)
  }

  /** `operator<` as documented beside its declaration: compare y first,
      then x (row-major scan order). */
  predicate Less(a: Coord, b: Coord)
  {
    a.y < b.y || (a.y == b.y && a.x < b.x)
  }

  /** `operator>`: the converse of `<`. */
  predicate Greater(a: Coord, b: Coord)
  {
    Less(b, a)
  }

  /** The scan order is a strict total order: exactly one of a < b, a == b,
      a > b holds, and it is transitive. */
  lemma LessIsStrictTotalOrder(a: Coord, b: Coord, c: Coord)
    ensures !Less(a, a)
    ensures Less(a, b) && Less(b, c) ==> Less(a, c)
    ensures (Less(a, b) && !Eq(a, b) && !Greater(a, b))
         || (!Less(a, b) && Eq(a, b) && !Greater(a, b))
         || (!Less(a, b) && !Eq(a, b) && Greater(a, b))
  {
  }

  // ----- decimal text, as `std::ostream << int` writes it -----

  function DigitChar(d: nat): (c: char)
    requires d < 10
    ensures '0' <= c <= '9' && c as int - '0' as int == d
  {
    (d + '0' as int) as char
  }

  predicate IsDigit(c: char)
  {
    '0' <= c <= '9'
  }

  predicate AllDigits(s: string)
  {
    forall i :: 0 <= i < |s| ==> IsDigit(s[i])
  }

  function NatToString(n: nat): (s: string)
    decreases n
  {
    if n < 10 then [DigitChar(n)] else NatToString(n / 10) + [DigitChar(n % 10)]
  }

  function IntToString(i: int): (s: string)
  {
    if i < 0 then "-" + NatToString(-i) else NatToString(i)
  }

  /** Reads a non-empty run of decimal digits, most significant first. */
  function ParseNat(s: string): (n: nat)
    requires AllDigits(s)
    decreases |s|
  {
    if |s| == 0 then 0
    else ParseNat(s[..|s| - 1]) * 10 + (s[|s| - 1] as int - '0' as int)
  }

  /** Reads an optional '-' followed by at least one digit. */
  function ParseInt(s: string): (r: Option<int>)
  {
    if |s| > 1 && s[0] == '-' && AllDigits(s[1..]) then Some(0 - ParseNat(s[1..]) as int)
    else if |s| > 0 && AllDigits(s) then Some(ParseNat(s))
    else None
  }

  lemma {:induction false} NatToStringRoundTrip(n: nat)
    ensures |NatToString(n)| > 0 && AllDigits(NatToString(n))
    ensures ParseNat(NatToString(n)) == n
    decreases n
  {
    if n >= 10 {
      NatToStringRoundTrip(n / 10);
      var s := NatToString(n);
      assert s[..|s| - 1] == NatToString(n / 10);
    }
  }

  lemma IntToStringRoundTrip(i: int)
    ensures |IntToString(i)| > 0 && ParseInt(IntToString(i)) == Some(i)
    ensures forall k :: 0 <= k < |IntToString(i)| ==> IntToString(i)[k] != ',' && IntToString(i)[k] != ')'
  {
    if i < 0 {
      NatToStringRoundTrip(-i);
      assert IntToString(i)[1..] == NatToString(-i);
    } else {
      NatToStringRoundTrip(i);
    }
  }

  /** `operator<<`: writes "(x,y)". */
  function Show(c: Coord): (s: string)
  {
    "(" + IntToString(c.x) + "," + IntToString(c.y) + ")"
  }

  /** Reads back the text form written by `Show`: the part before the first
      comma is x, the rest is y. */
  function ParseCoord(s: string): (r: Option<Coord>)
  {
    if |s| < 2 || s[0] != '(' || s[|s| - 1] != ')' then None
    else
      var inner := s[1..|s| - 1];
      var k := FirstComma(inner);
      if k == |inner| then None
      else
        match (ParseInt(inner[..k]), ParseInt(inner[k + 1..]))
        case (Some(x), Some(y)) => Some(Coord(x, y))
        case _ => None
  }

  function FirstComma(s: string): (k: nat)
    ensures k <= |s|
    ensures forall i :: 0 <= i < k ==> s[i] != ','
    ensures k < |s| ==> s[k] == ','
  {
    if |s| == 0 then 0 else if s[0] == ',' then 0 else 1 + FirstComma(s[1..])
  }

  /** Printing a Coord loses nothing: the text reads back as the same point. */
  lemma ShowRoundTrip(c: Coord)
    ensures ParseCoord(Show(c)) == Some(c)
  {
    var xs, ys := IntToString(c.x), IntToString(c.y);
    IntToStringRoundTrip(c.x);
    IntToStringRoundTrip(c.y);
    var s := Show(c);
    var inner := s[1..|s| - 1];
    assert inner == xs + "," + ys;
    var k := FirstComma(inner);
    assert forall i :: 0 <= i < |xs| ==> inner[i] == xs[i];
    assert inner[|xs|] == ',';
    assert k == |xs|;
    assert inner[..k] == xs;
    assert inner[k + 1..] == ys;
  }
}
