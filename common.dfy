/** Definitions shared by the page modules: optional values, the store's user
    identifiers, millisecond constants and the two-decimal rounding that
    `Number(x.toFixed(2))` performs. */
module Common {

  datatype Option<T> = None | Some(value: T)

  /** The auth provider's user id (a UUID string). */
  type UserId = string

  const MsPerMinute: int := 60_000
  const MsPerHour: int := 3_600_000
  const MsPerDay: int := 86_400_000

  /** `Math.abs` on integers. */
  function Abs(x: int): nat { if x < 0 then -x else x }

  /** `n / d` rounded to the nearest integer, a half rounded away from zero:
      `toFixed` rounds the magnitude half up and puts the sign back. Used with
      `d` chosen so that the quotient is in hundredths. */
  function RoundDiv(n: int, d: int): (r: int)
    requires d > 0
    ensures 2 * (r * d - n) <= d && 2 * (n - r * d) <= d
    ensures n >= 0 ==> r >= 0 && 2 * (n - r * d) < d
    ensures n < 0 ==> r <= 0 && 2 * (r * d - n) < d
  {
    if n >= 0 then HalfUp(n, d) else -(HalfUp(-n, d) as int)
  }

  /** Nearest integer to `n / d` for `n >= 0`, halves rounded up. */
  function HalfUp(n: nat, d: int): (r: nat)
    requires d > 0
    ensures 2 * (r * d - n) <= d && 2 * (n - r * d) < d
  {
    var q := (2 * n + d) / (2 * d);
    DivBounds(2 * n + d, 2 * d);
    q
  }

  lemma DivBounds(a: nat, b: int)
    requires b > 0
    ensures (a / b) * b <= a < (a / b) * b + b && a / b >= 0
  {
  }

  /** The rounding is symmetric about zero. */
  lemma RoundDivOdd(n: int, d: int)
    requires d > 0
    ensures RoundDiv(-n, d) == -RoundDiv(n, d)
  {
  }

  /** The rounded value is the unique nearest multiple, halves away from
      zero: any `k` that is as close and breaks ties the same way is `r`. */
  lemma {:induction false} RoundDivUnique(n: int, d: int, k: int)
    requires d > 0 && n >= 0
    requires 2 * (k * d - n) <= d && 2 * (n - k * d) < d
    ensures k == RoundDiv(n, d)
  {
    var r := RoundDiv(n, d);
    assert (k - r) * d == k * d - r * d;
    assert (r - k) * d == r * d - k * d;
    AtLeastOnce(k - r, d);
    AtLeastOnce(r - k, d);
  }

  lemma AtLeastOnce(a: int, d: int)
    requires d > 0
    ensures a >= 1 ==> a * d >= d
  {
    if a >= 1 {
      MulMono(a, 1, d);
    }
  }

  /** A whole multiple of `d` leaves no remainder. */
  lemma MultipleMod(k: int, d: int)
    requires d > 0
    ensures (k * d) % d == 0
  {
    var q, r := (k * d) / d, (k * d) % d;
    assert (k - q) * d == k * d - q * d;
    assert (q - k) * d == q * d - k * d;
    AtLeastOnce(k - q, d);
    AtLeastOnce(q - k, d);
  }

  lemma MulMono(a: int, b: int, d: int)
    requires a >= b && d > 0
    ensures a * d >= b * d
  {
  }
}
