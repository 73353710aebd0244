/**
 The resize policy applied to every decoded PNG before it is re-encoded:
 an image whose longest side exceeds `MaxSide` is scaled so that its longest
 side becomes exactly `MaxSide` and the other side keeps the proportion,
 truncated towards zero; smaller images pass through unchanged.

 The script computes the shorter side as `int(800 * other / longest)`, a float
 division followed by truncation. On natural numbers that quotient is never
 negative, so truncation is the floor. When `801 * longest < 2^53` (a
 longest side below about 1.1e13 pixels, far beyond any real image) the
 exact quotient lies at least `1 / longest` below the next integer, which is
 more than the rounding error of the division, so the correctly rounded
 float quotient truncates to the same integer as Dafny's integer division.
 Beyond that bound they can differ: with `other = 22517998136853` and
 `longest = 800 * other + 1` the float quotient rounds up to 1.0 while the
 floor is 0. The model uses integer division.
 */
module Resize {

  /** The cap on the longest side, in pixels. */
  const MaxSide: nat := 800

  /** Pixel dimensions of an image, as reported by the decoder. */
  datatype Size = Size(width: nat, height: nat)

  /** The longest side; the width when the sides are equal. */
  function Longest(s: Size): nat {
    if s.width >= s.height then s.width else s.height
  }

  /** `scaled` is `MaxSide * other / longest` rounded down, stated without division. */
  ghost predicate IsFloorRatio(scaled: nat, other: nat, longest: nat) {
    scaled * longest <= MaxSide * other < (scaled + 1) * longest
  }

  /** The policy as a relation between an input size and an acceptable target size. */
  ghost predicate Capped(s: Size, t: Size) {
    if Longest(s) <= MaxSide then
      t == s
    else if s.width >= s.height then
      t.width == MaxSide && IsFloorRatio(t.height, s.height, s.width)
    else
      t.height == MaxSide && IsFloorRatio(t.width, s.width, s.height)
  }

  /** Multiplying by a natural number keeps `<=`. */
  lemma MulMono(a: nat, b: nat, c: nat)
    requires a <= b
    ensures a * c <= b * c
  {
  }

  /** A positive factor can be cancelled from both sides of `<=`. */
  lemma {:induction false} MulCancelLe(a: nat, b: nat, c: nat)
    requires c > 0 && a * c <= b * c
    ensures a <= b
  {
  }

  /** Integer division meets the floor characterisation for a positive divisor. */
  lemma {:induction false} DivIsFloor(a: nat, b: nat)
    requires b > 0
    ensures IsFloorRatio(MaxSide * a / b, a, b)
  {
  }

  /** When `other <= longest` and `longest > MaxSide`, the scaled side stays at or below both. */
  lemma {:induction false} ScaledSideBounds(q: nat, other: nat, longest: nat)
    requires other <= longest && longest > MaxSide
    requires IsFloorRatio(q, other, longest)
    ensures q <= other && q <= MaxSide
  {
    // q * longest <= MaxSide * other <= other * longest, then cancel `longest`;
    // likewise against MaxSide * longest.
    MulMono(MaxSide, longest, other);
    MulCancelLe(q, other, longest);
    MulMono(other, longest, MaxSide);
    MulCancelLe(q, MaxSide, longest);
  }

  /** The shorter side scaled so that `longest` would become `MaxSide`, rounded down. */
  function ScaleSide(other: nat, longest: nat): (q: nat)
    requires other <= longest && longest > MaxSide
    ensures IsFloorRatio(q, other, longest)
    ensures q <= other && q <= MaxSide
  {
    var q := MaxSide * other / longest;
    DivIsFloor(other, longest);
    ScaledSideBounds(q, other, longest);
    q
  }

  /** The target size of an image of size `s` (the branch at lines 38-45). */
  function TargetSize(s: Size): (t: Size)
    ensures Longest(s) <= MaxSide ==> t == s
    ensures Longest(s) > MaxSide ==> Longest(t) == MaxSide
    ensures t.width <= s.width && t.height <= s.height
  {
    if Longest(s) <= MaxSide then
      s
    else if s.width >= s.height then
      Size(MaxSide, ScaleSide(s.height, s.width))
    else
      Size(ScaleSide(s.width, s.height), MaxSide)
  }

  /** The floor characterisation has exactly one solution. */
  lemma {:induction false} FloorRatioUnique(x: nat, y: nat, other: nat, longest: nat)
    requires IsFloorRatio(x, other, longest) && IsFloorRatio(y, other, longest)
    ensures x == y
  {
  }

  /** `TargetSize` follows the policy: the scaled side is the rounded-down proportion. */
  lemma TargetSizeIsCapped(s: Size)
    ensures Capped(s, TargetSize(s))
  {
  }

  /** `TargetSize` is the only size the policy allows: the relation is a function. */
  lemma CappedIsTargetSize(s: Size, t: Size)
    ensures Capped(s, t) <==> t == TargetSize(s)
  {
    TargetSizeIsCapped(s);
    if Capped(s, t) {
      var u := TargetSize(s);
      if Longest(s) > MaxSide {
        if s.width >= s.height {
          FloorRatioUnique(t.height, u.height, s.height, s.width);
        } else {
          FloorRatioUnique(t.width, u.width, s.width, s.height);
        }
      }
    }
  }

  /** Applying the policy to its own result changes nothing. */
  lemma TargetSizeIdempotent(s: Size)
    ensures TargetSize(TargetSize(s)) == TargetSize(s)
  {
  }

  /** An image over the cap ends with its longest side exactly at the cap, on the same axis. */
  lemma OversizeHitsCap(s: Size)
    requires Longest(s) > MaxSide
    ensures Longest(TargetSize(s)) == MaxSide
    ensures s.width >= s.height ==> TargetSize(s).width == MaxSide
    ensures s.width < s.height ==> TargetSize(s).height == MaxSide && TargetSize(s).width < MaxSide
  {
  }

  /** A landscape photograph of 1600 by 900 is stored at 800 by 450; a 200 by 200 icon is untouched. */
  lemma ScenarioSizes()
    ensures TargetSize(Size(1600, 900)) == Size(800, 450)
    ensures TargetSize(Size(200, 200)) == Size(200, 200)
  {
  }
}
