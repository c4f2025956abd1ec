/**
 * Exact decimal money. Python's `Decimal` values are modelled by Dafny's
 * exact `real`; a `Numeric(15, 2)` amount is a real with at most two
 * decimal places.
 */
module Money {

  /** The per-transaction ceiling of the amount validator. */
  const MaxAmount: real := 1000000.0

  /** `x` has at most two decimal places. */
  predicate IsCents(x: real)
  {
    (x * 100.0).Floor as real == x * 100.0
  }

  /** `x.quantize(Decimal('0.01'))` under Python's default decimal context,
      whose rounding is ROUND_HALF_EVEN: the nearest multiple of 0.01, and on
      a tie the one with an even last digit. */
  function Quantize(x: real): (r: real)
    ensures IsCents(r)
    ensures -0.005 <= r - x <= 0.005
  {
    var scaled := x * 100.0;
    var n := scaled.Floor;
    var frac := scaled - n as real;
    var m := if frac > 0.5 then n + 1
             else if frac < 0.5 then n
             else if n % 2 == 0 then n else n + 1;
    m as real / 100.0
  }

  /** The distance between two amounts. */
  function Distance(a: real, b: real): real
  {
    if a >= b then a - b else b - a
  }

  /** No multiple of 0.01 is closer to `x` than `Quantize(x)`. */
  lemma QuantizeIsNearest(x: real, c: real)
    requires IsCents(c)
    ensures Distance(Quantize(x), x) <= Distance(c, x)
  {
    var scaled := x * 100.0;
    var n := scaled.Floor;
    var k := (c * 100.0).Floor;
    assert c == k as real / 100.0;
    var r := Quantize(x);
    var m := (r * 100.0).Floor;
    assert r == m as real / 100.0;
    assert m == n || m == n + 1;
    if k <= n {
      assert c <= n as real / 100.0;
    } else {
      assert c >= (n + 1) as real / 100.0;
    }
  }

  /** An amount already in cents is left as it is. */
  lemma QuantizeKeepsCents(x: real)
    requires IsCents(x)
    ensures Quantize(x) == x
  {
    var n := (x * 100.0).Floor;
    assert x * 100.0 - n as real == 0.0;
  }

  /** Quantizing twice is quantizing once. */
  lemma QuantizeIdempotent(x: real)
    ensures Quantize(Quantize(x)) == Quantize(x)
  {
    QuantizeKeepsCents(Quantize(x));
  }

  /** A positive amount never quantizes to a negative one, and it
      quantizes to zero exactly when it is at most half a cent: the tie at
      0.005 goes to the even 0.00. */
  lemma QuantizePositive(x: real)
    requires x > 0.0
    ensures Quantize(x) >= 0.0
    ensures Quantize(x) == 0.0 <==> x <= 0.005
  {
    var r := Quantize(x);
    var m := (r * 100.0).Floor;
    assert r == m as real / 100.0;
    assert m as real > -0.5 - 0.0;
    if x <= 0.005 {
      var n := (x * 100.0).Floor;
      assert n == 0;
    } else {
      assert m >= 1;
    }
  }

  /** On a tie, halfway between two cents, the result is the even one of the
      two neighbours. */
  lemma QuantizeTiesToEven(x: real)
    requires x * 100.0 - (x * 100.0).Floor as real == 0.5
    ensures (Quantize(x) * 100.0).Floor % 2 == 0
    ensures Quantize(x) == (x * 100.0 - 0.5) / 100.0 || Quantize(x) == (x * 100.0 + 0.5) / 100.0
  {
    var n := (x * 100.0).Floor;
    var m := if n % 2 == 0 then n else n + 1;
    assert Quantize(x) == m as real / 100.0;
    assert (Quantize(x) * 100.0) == m as real;
  }

  /** The first amount whose quantized value has more digits than the 28 of
      Python's default decimal context: a multiple of 0.01 at or above
      10^26 has a coefficient of 29 digits, and `quantize` then raises
      InvalidOperation. */
  const QuantizeLimit: real := 100000000000000000000000000.0

  /** The quantized amount overflows the context exactly from half a cent
      below the limit on, since that tie rounds up to the even 10^28 cents. */
  lemma QuantizeOverflowIff(x: real)
    ensures Quantize(x) >= QuantizeLimit <==> x >= QuantizeLimit - 0.005
  {
    var r := Quantize(x);
    var m := (r * 100.0).Floor;
    assert r == m as real / 100.0;
    if x == QuantizeLimit - 0.005 {
      assert (x * 100.0).Floor == 9999999999999999999999999999;
    } else if x > QuantizeLimit - 0.005 {
      assert m as real > QuantizeLimit * 100.0 - 1.0;
    }
  }

  /** Ties go to the even cent. */
  lemma QuantizeHalfEven()
    ensures Quantize(0.005) == 0.0
    ensures Quantize(0.015) == 0.02
    ensures Quantize(0.025) == 0.02
    ensures Quantize(12.345) == 12.34
  {
    assert (0.005 * 100.0).Floor == 0;
    assert (0.015 * 100.0).Floor == 1;
    assert (0.025 * 100.0).Floor == 2;
    assert (12.345 * 100.0).Floor == 1234;
  }
}
