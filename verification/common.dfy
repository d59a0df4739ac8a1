/**
 * Shared vocabulary of the plugin: optional values, world-space vectors,
 * entity handles and the enumerations every subsystem refers to.
 */
module SmbCommon {

  datatype Option<T> = None | Some(value: T)

  /** An FVector: a point or a direction in world space. */
  datatype Vec3 = Vec3(x: real, y: real, z: real)

  const ZeroVector: Vec3 := Vec3(0.0, 0.0, 0.0)
  const DownVector: Vec3 := Vec3(0.0, 0.0, -1.0)
  const UpVector: Vec3 := Vec3(0.0, 0.0, 1.0)

  /**
   * A Mass entity handle. Index 0 is reserved by the entity manager, so a
   * live entity always has a positive index; the default handle is (0, 0).
   */
  datatype Handle = Handle(index: int, serialNumber: int)

  const NullHandle: Handle := Handle(0, 0)

  function Abs(x: real): (r: real)
    ensures r >= 0.0 && (r == x || r == -x)
  {
    if x < 0.0 then -x else x
  }

  /** FMath::Min on floats. */
  function Min(a: real, b: real): (r: real)
    ensures r <= a && r <= b && (r == a || r == b)
  {
    if a <= b then a else b
  }

  function Max(a: real, b: real): (r: real)
    ensures r >= a && r >= b && (r == a || r == b)
  {
    if a >= b then a else b
  }

  /** FMath::Clamp on floats. */
  function Clamp(x: real, lo: real, hi: real): (r: real)
    requires lo <= hi
    ensures lo <= r <= hi
    ensures lo <= x <= hi ==> r == x
  {
    if x < lo then lo else if x > hi then hi else x
  }

  /** The squared Euclidean distance |a - b|^2. */
  function DistSq(a: Vec3, b: Vec3): (d: real)
    ensures d >= 0.0
  {
    (a.x - b.x) * (a.x - b.x) + (a.y - b.y) * (a.y - b.y) + (a.z - b.z) * (a.z - b.z)
  }

  /**
   * `(a - b).Size() <= r`, decided without a square root: a length is never
   * negative, so it is at most r exactly when r is non-negative and the
   * squared length is at most r * r (see `LengthComparisons`).
   */
  predicate WithinDist(a: Vec3, b: Vec3, r: real)
  {
    0.0 <= r && DistSq(a, b) <= r * r
  }

  /** `(a - b).Size() < r`, decided without a square root. */
  predicate CloserThan(a: Vec3, b: Vec3, r: real)
  {
    0.0 < r && DistSq(a, b) < r * r
  }

  /** Two non-negative lengths compare as their squares do, strictly or not. */
  lemma SquaresOrdered(d1: real, d2: real)
    requires 0.0 <= d1 && 0.0 <= d2
    ensures (d1 <= d2) == (d1 * d1 <= d2 * d2)
    ensures (d1 < d2) == (d1 * d1 < d2 * d2)
  {
    if d1 < d2 {
      StrictSquares(d1, d2);
    } else if d2 < d1 {
      StrictSquares(d2, d1);
    }
  }

  lemma StrictSquares(lo: real, hi: real)
    requires 0.0 <= lo < hi
    ensures lo * lo < hi * hi
  {
    calc {
      lo * lo;
    <=
      lo * hi;
    ==
      hi * lo;
    <
      hi * hi;
    }
  }

  /**
   * Comparing squared lengths is the same as comparing lengths: for any
   * non-negative d whose square is q, the two predicates above agree with
   * the comparisons on d itself.
   */
  lemma LengthComparisons(d: real, q: real, r: real)
    requires 0.0 <= d && d * d == q
    ensures (d <= r) == (0.0 <= r && q <= r * r)
    ensures (d < r) == (0.0 < r && q < r * r)
  {
    if 0.0 <= r {
      SquaresOrdered(d, r);
    }
  }

  /**
   * The C++ conversion of a float to int32: the fraction is dropped, rounding
   * toward zero (Dafny's `.Floor` rounds toward minus infinity).
   */
  function TruncToInt(x: real): (n: int)
    ensures 0.0 <= x ==> 0 <= n && n as real <= x < n as real + 1.0
    ensures x < 0.0 ==> n <= 0 && n as real - 1.0 < x <= n as real
  {
    if 0.0 <= x then x.Floor else -((-x).Floor)
  }

  /** EProcessable: the resource kinds, plus Storage for depots. */
  datatype EProcessable = Gold | Food | Grass | Wood | Stone | Water | Storage | None

  /** EAnimationState. */
  datatype EAnimationState = Idle | Attacking | Running | Dead | ProcessingResource
                           | AttackingExtra1 | AttackingExtra2

  /** EAggressionState. */
  datatype EAggressionState = Passive | Pacifist | Guard | Aggressive

  /** The larger of x and 0. */
  function Max0(x: int): (r: nat)
    ensures r >= x && (x >= 0 ==> r == x)
  {
    if x < 0 then 0 else x
  }

  /** FMath::Min on int32 values; Dafny has no overloading, so the integer instance has its own name. */
  function IMin(a: int, b: int): (r: int)
    ensures r <= a && r <= b && (r == a || r == b)
  {
    if a <= b then a else b
  }
}
