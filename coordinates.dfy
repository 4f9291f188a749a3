/**
  The board's grid index: a pair of unsigned 16-bit coordinates
  (board_plugin/src/components/coordinates.rs) with component-wise
  addition, component-wise saturating subtraction, the derived
  lexicographic order, equality and default, and the "(x, y)" display form.
 */
module Coordinates {
  import Decimal

  /** Rust's `u16`. */
  type U16 = n: nat | n <= 0xFFFF

  const U16Modulus: nat := 0x1_0000

  datatype Option<T> = None | Some(value: T)

  datatype Coordinates = Coordinates(x: U16, y: U16)

  /** The derived `Default`: every field at its own default, zero. It is the least coordinate. */
  function Default(): (r: Coordinates)
    ensures forall c :: LessEq(r, c)
  {
    Coordinates(0, 0)
  }

  // ---------------------------------------------------------------------
  // Addition

  /** `self.x + rhs.x` and `self.y + rhs.y` stay within `u16`: the one case where `+` neither panics nor wraps. */
  predicate NoOverflow(a: Coordinates, b: Coordinates) {
    a.x + b.x <= 0xFFFF && a.y + b.y <= 0xFFFF
  }

  /**
    `Add::add`: component-wise `u16` addition. Plain `+` on `u16` panics on
    overflow in a debug build, so that is a precondition here.
   */
  function Add(a: Coordinates, b: Coordinates): (r: Coordinates)
    requires NoOverflow(a, b)
    ensures Sub(r, b) == a && Sub(r, a) == b
    ensures LessEq(a, r)
  {
    Coordinates(a.x + b.x, a.y + b.y)
  }

  /** The same `+` in a release build, where `u16` addition wraps modulo 2^16. */
  function WrappingAdd(a: Coordinates, b: Coordinates): (r: Coordinates)
    ensures r.x == a.x + b.x || r.x == a.x + b.x - U16Modulus
    ensures r.y == a.y + b.y || r.y == a.y + b.y - U16Modulus
  {
    Coordinates((a.x + b.x) % U16Modulus, (a.y + b.y) % U16Modulus)
  }

  /** Where the debug build does not panic, both builds agree; where it would panic, the release build wraps to a smaller coordinate. */
  lemma WrappingAddAgrees(a: Coordinates, b: Coordinates)
    ensures NoOverflow(a, b) ==> WrappingAdd(a, b) == Add(a, b)
    ensures a.x + b.x > 0xFFFF ==> WrappingAdd(a, b).x < a.x
    ensures a.y + b.y > 0xFFFF ==> WrappingAdd(a, b).y < a.y
  {
  }

  lemma AddCommutative(a: Coordinates, b: Coordinates)
    requires NoOverflow(a, b)
    ensures NoOverflow(b, a) && Add(a, b) == Add(b, a)
  {
  }

  lemma AddIdentity(a: Coordinates)
    ensures NoOverflow(a, Default()) && Add(a, Default()) == a
    ensures NoOverflow(Default(), a) && Add(Default(), a) == a
  {
  }

  /** Each axis of `Add` is exact integer addition. */
  lemma AddPerAxis(a: Coordinates, b: Coordinates)
    requires NoOverflow(a, b)
    ensures Add(a, b).x == a.x + b.x && Add(a, b).y == a.y + b.y
  {
  }

  // ---------------------------------------------------------------------
  // Subtraction

  /**
    `u16::saturating_sub`: the difference, or zero where it would be
    negative. Characterised as the value that is at most `a`, reaches `a`
    when `b` is added back, and is either zero or exact.
   */
  function SaturatingSub(a: U16, b: U16): (r: U16)
    ensures r <= a
    ensures r + b >= a
    ensures r == 0 || r + b == a
  {
    if a >= b then a - b else 0
  }

  /** Those three facts determine the saturating difference. */
  lemma SaturatingSubUnique(a: U16, b: U16, r: U16)
    requires r <= a && r + b >= a && (r == 0 || r + b == a)
    ensures r == SaturatingSub(a, b)
  {
  }

  /** Saturating subtraction is adjoint to addition: `a - b <= c` exactly when `a <= c + b`. */
  lemma SaturatingSubAdjoint(a: U16, b: U16, c: nat)
    ensures SaturatingSub(a, b) <= c <==> a <= c + b
  {
  }

  /** `Sub::sub`: component-wise saturating subtraction; it never fails and never grows an axis. */
  function Sub(a: Coordinates, b: Coordinates): (r: Coordinates)
    ensures r.x <= a.x && r.y <= a.y
  {
    Coordinates(SaturatingSub(a.x, b.x), SaturatingSub(a.y, b.y))
  }

  /** Each axis of `Sub` is the truncated difference of that axis. */
  lemma SubPerAxis(a: Coordinates, b: Coordinates)
    ensures Sub(a, b).x == if a.x >= b.x then a.x - b.x else 0
    ensures Sub(a, b).y == if a.y >= b.y then a.y - b.y else 0
  {
  }

  /** The `x` of a difference depends only on the two `x`s, and the `y` only on the two `y`s. */
  lemma SubAxesIndependent(a: Coordinates, b: Coordinates, a': Coordinates, b': Coordinates)
    ensures a.x == a'.x && b.x == b'.x ==> Sub(a, b).x == Sub(a', b').x
    ensures a.y == a'.y && b.y == b'.y ==> Sub(a, b).y == Sub(a', b').y
  {
  }

  lemma SubSelf(a: Coordinates)
    ensures Sub(a, a) == Default()
  {
  }

  lemma SubDefault(a: Coordinates)
    ensures Sub(a, Default()) == a
    ensures Sub(Default(), a) == Default()
  {
  }

  /** Adding back what was subtracted restores each axis where it did not saturate and never falls short. */
  lemma SubThenAdd(a: Coordinates, b: Coordinates)
    ensures NoOverflow(Sub(a, b), b)
    ensures var r := Add(Sub(a, b), b);
      r.x == (if a.x >= b.x then a.x else b.x) && r.y == (if a.y >= b.y then a.y else b.y)
  {
  }

  /** The round trip: `(a + b) - b == a` whenever `a + b` does not overflow. */
  lemma AddThenSub(a: Coordinates, b: Coordinates)
    requires NoOverflow(a, b)
    ensures Sub(Add(a, b), b) == a
  {
  }

  // ---------------------------------------------------------------------
  // The derived order

  datatype Ordering = Less | Equal | Greater {
    function Reverse(): Ordering {
      match this
      case Less => Greater
      case Equal => Equal
      case Greater => Less
    }
  }

  function CompareInt(a: int, b: int): Ordering {
    if a < b then Less else if a == b then Equal else Greater
  }

  /** The derived `Ord::cmp` of a struct: compare `x` first and, only on a tie, `y`. */
  function Compare(a: Coordinates, b: Coordinates): Ordering {
    match CompareInt(a.x, b.x)
    case Equal => CompareInt(a.y, b.y)
    case other => other
  }

  /** The derived `<=`; it agrees with comparing ranks. */
  predicate LessEq(a: Coordinates, b: Coordinates): (r: bool)
    ensures r <==> Rank(a) <= Rank(b)
  {
    Compare(a, b) != Greater
  }

  /** The position of a coordinate in the order: a board-independent reference for `Compare`. */
  function Rank(c: Coordinates): (r: nat)
    ensures r < U16Modulus * U16Modulus
  {
    c.x * U16Modulus + c.y
  }

  /** The two values a rank is made of, read back. */
  lemma RankDecomposes(c: Coordinates)
    ensures Rank(c) / U16Modulus == c.x && Rank(c) % U16Modulus == c.y
  {
  }

  /** `Compare` orders coordinates exactly as their ranks are ordered. */
  lemma CompareIsRankOrder(a: Coordinates, b: Coordinates)
    ensures Compare(a, b) == CompareInt(Rank(a), Rank(b))
  {
  }

  /** The derived equality is structural, and `Compare` says `Equal` exactly on it. */
  lemma CompareEqual(a: Coordinates, b: Coordinates)
    ensures Compare(a, b) == Equal <==> a == b
    ensures a == b <==> a.x == b.x && a.y == b.y
  {
  }

  lemma CompareAntisymmetric(a: Coordinates, b: Coordinates)
    ensures Compare(b, a) == Compare(a, b).Reverse()
  {
  }

  /** `LessEq` is a total order: reflexive, antisymmetric, transitive and total. */
  lemma LessEqTotalOrder(a: Coordinates, b: Coordinates, c: Coordinates)
    ensures LessEq(a, a)
    ensures LessEq(a, b) && LessEq(b, a) ==> a == b
    ensures LessEq(a, b) && LessEq(b, c) ==> LessEq(a, c)
    ensures LessEq(a, b) || LessEq(b, a)
  {
  }

  /** The default coordinate is the least one. */
  lemma DefaultIsLeast(c: Coordinates)
    ensures LessEq(Default(), c)
    ensures LessEq(c, Default()) ==> c == Default()
  {
  }

  // ---------------------------------------------------------------------
  // Display

  /** `Display::fmt`: `"(" + x + ", " + y + ")"` with both axes in decimal. */
  function Display(c: Coordinates): (s: string)
    ensures |s| >= 6 && s[0] == '(' && s[|s| - 1] == ')'
  {
    "(" + Decimal.Show(c.x) + ", " + Decimal.Show(c.y) + ")"
  }

  /** The index of the first ',' in `s`, or `|s|` when there is none. */
  function FirstComma(s: string): (k: nat)
    ensures k <= |s|
    ensures forall i :: 0 <= i < k ==> s[i] != ','
    ensures k < |s| ==> s[k] == ','
  {
    if s == [] then 0 else if s[0] == ',' then 0 else 1 + FirstComma(s[1..])
  }

  /** Reads one canonical decimal `u16` back. */
  function ParseU16(s: string): (r: Option<U16>)
    ensures r.Some? ==> Decimal.Show(r.value) == s
  {
    if Decimal.Canonical(s) && Decimal.Value(s) <= 0xFFFF then
      Decimal.ShowOfValue(s);
      Some(Decimal.Value(s))
    else None
  }

  /** Reads `x, y` back: two numbers split at the first comma, which a space follows. */
  function ParsePair(inner: string): Option<Coordinates> {
    var k := FirstComma(inner);
    if k + 1 >= |inner| || inner[k + 1] != ' ' then None
    else
      match (ParseU16(inner[..k]), ParseU16(inner[k + 2..]))
      case (Some(x), Some(y)) => Some(Coordinates(x, y))
      case _ => None
  }

  /** Reads a display form back; the inverse of `Display`. */
  function ParseDisplay(s: string): Option<Coordinates> {
    if |s| < 2 || s[0] != '(' || s[|s| - 1] != ')' then None else ParsePair(s[1..|s| - 1])
  }

  /** A run of digits followed by a comma: the first comma is the one after the digits. */
  lemma {:induction false} FirstCommaAfterDigits(d: string, e: string)
    requires Decimal.AllDigits(d) && |e| >= 1 && e[0] == ','
    ensures FirstComma(d + e) == |d|
    decreases |d|
  {
    if d != [] {
      assert (d + e)[1..] == d[1..] + e;
      FirstCommaAfterDigits(d[1..], e);
    }
  }

  lemma ParseU16OfShow(n: U16)
    ensures ParseU16(Decimal.Show(n)) == Some(n)
  {
    Decimal.ValueOfShow(n);
  }

  lemma ParsePairOf(xs: string, ys: string)
    requires Decimal.AllDigits(xs)
    ensures ParsePair(xs + (", " + ys)) ==
      match (ParseU16(xs), ParseU16(ys))
      case (Some(x), Some(y)) => Some(Coordinates(x, y))
      case _ => None
  {
    var inner := xs + (", " + ys);
    FirstCommaAfterDigits(xs, ", " + ys);
    assert inner[..|xs|] == xs;
    assert inner[|xs| + 2..] == ys;
  }

  /** Parsing a display form gives back the coordinate displayed. */
  lemma ParseDisplayRoundTrip(c: Coordinates)
    ensures ParseDisplay(Display(c)) == Some(c)
  {
    var xs, ys := Decimal.Show(c.x), Decimal.Show(c.y);
    var inner := xs + (", " + ys);
    var s := Display(c);
    assert s == "(" + inner + ")";
    assert s[1..|s| - 1] == inner;
    ParseU16OfShow(c.x);
    ParseU16OfShow(c.y);
    ParsePairOf(xs, ys);
  }

  /** Distinct coordinates never display alike. */
  lemma DisplayInjective(a: Coordinates, b: Coordinates)
    ensures Display(a) == Display(b) <==> a == b
  {
    ParseDisplayRoundTrip(a);
    ParseDisplayRoundTrip(b);
  }
}
