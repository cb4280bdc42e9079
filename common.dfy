/** Small value types and helpers shared by the data-layer model. */
module Common {

  /** A nullable value (a Kotlin `T?`, an SQL column that may be NULL). */
  datatype Option<T> = None | Some(value: T) {
    /** Kotlin's elvis operator `x ?: default`, SQL's `COALESCE(x, default)`. */
    function GetOr(default: T): T {
      match this
      case Some(v) => v
      case None => default
    }
  }

  /** A value or the exception the source would throw instead. */
  datatype Result<T> = Ok(value: T) | Err(error: string)

  /** A sequence in which no element occurs twice (the iteration order of a Kotlin `LinkedHashSet`). */
  ghost predicate NoDuplicates<T>(s: seq<T>) {
    forall i, j :: 0 <= i < j < |s| ==> s[i] != s[j]
  }

  /** Millisecond constants of android.text.format.DateUtils. */
  const HOUR_IN_MILLIS: int := 3_600_000
  const DAY_IN_MILLIS: int := 86_400_000
  const WEEK_IN_MILLIS: int := 604_800_000

  /**
   * Kotlin `Long` division by a positive divisor: the quotient is truncated
   * toward zero, so the remainder takes the sign of the dividend (Dafny's `/`
   * is Euclidean and differs for a negative dividend).
   */
  function KDiv(a: int, b: int): (q: int)
    requires b > 0
    ensures 0 <= a ==> 0 <= a - q * b < b
    ensures a < 0 ==> -b < a - q * b <= 0
  {
    if a >= 0 then a / b else -((-a) / b)
  }

  /** Kotlin `Long` truncation of `a` down to a multiple of `b` (toward zero). */
  function Truncate(a: int, b: int): (r: int)
    requires b > 0
    ensures r % b == 0
    ensures 0 <= a ==> a - b < r <= a
    ensures a < 0 ==> a <= r < a + b
  {
    TruncateIsMultiple(KDiv(a, b), b);
    KDiv(a, b) * b
  }

  /** Truncating a non-negative value never goes below zero. */
  lemma TruncateNonNegative(a: int, b: int)
    requires 0 <= a && b > 0
    ensures 0 <= Truncate(a, b)
  {
    var q := KDiv(a, b);
    assert q >= 0 by { DivNonNegative(a, b); }
    MulNonNegative(q, b);
    assert Truncate(a, b) == q * b;
  }

  lemma DivNonNegative(a: int, b: int)
    requires 0 <= a && b > 0
    ensures 0 <= a / b
  {
  }

  lemma MulNonNegative(a: int, b: int)
    requires a >= 0 && b > 0
    ensures a * b >= 0
  {
  }

  lemma TruncateIsMultiple(q: int, b: int)
    requires b > 0
    ensures (q * b) % b == 0
  {
    if q >= 0 {
      MultipleMod(q, b);
    } else {
      MultipleMod(-q, b);
      assert q * b == -((-q) * b);
      assert ((-q) * b) % b == 0;
      var m := (-q) * b;
      assert m == (m / b) * b;
      assert -m == (-(m / b)) * b;
      ModOfMultiple(-(m / b), b);
    }
  }

  lemma MultipleMod(q: nat, b: int)
    requires b > 0
    ensures (q * b) % b == 0
  {
    ModOfMultiple(q, b);
  }

  lemma ModOfMultiple(k: int, b: int)
    requires b > 0
    ensures (k * b) % b == 0
  {
    var m := k * b;
    var r := m % b;
    var d := m / b;
    assert m == d * b + r && 0 <= r < b;
    var e := k - d;
    MulSub(k, d, b);
    assert e * b == r;
    if e > 0 {
      MulAtLeast(e, b);
    } else if e < 0 {
      MulAtLeast(-e, b);
    }
  }

  lemma MulSub(k: int, d: int, b: int)
    ensures (k - d) * b == k * b - d * b
  {
  }

  lemma MulAtLeast(e: int, b: int)
    requires e >= 1 && b > 0
    ensures e * b >= b
  {
    assert e * b == (e - 1) * b + b;
    assert (e - 1) * b >= 0;
  }
}
