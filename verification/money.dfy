/** Money is a `real`; the source rounds amounts to cents with
    `Math.round(x * 100) / 100`, where `Math.round` rounds halves up. */
module Money {

  /** `Math.round(x * 100) / 100`. */
  function Round2(x: real): (r: real)
    ensures x - 0.005 < r <= x + 0.005
    ensures (r * 100.0).Floor as real == r * 100.0
  {
    var cents := (x * 100.0 + 0.5).Floor;
    assert (cents as real) / 100.0 * 100.0 == cents as real;
    (cents as real) / 100.0
  }

  /** A whole number of cents is left as it is. */
  lemma Round2Cents(k: int)
    ensures Round2(k as real / 100.0) == k as real / 100.0
  {
    var x := k as real / 100.0;
    assert x * 100.0 + 0.5 == k as real + 0.5;
    assert (k as real + 0.5).Floor == k;
  }

  /** Rounding twice is rounding once. */
  lemma Round2Idempotent(x: real)
    ensures Round2(Round2(x)) == Round2(x)
  {
    var r := Round2(x);
    var k := (r * 100.0).Floor;
    assert r == k as real / 100.0;
    Round2Cents(k);
  }

  /** `x * (1 - percent / 100)`: the amount left after a percentage discount. */
  function ApplyPercent(x: real, percent: real): (r: real)
    ensures 0.0 <= percent <= 100.0 && x >= 0.0 ==> 0.0 <= r <= x
    ensures percent == 0.0 ==> r == x
  {
    var f := 1.0 - percent / 100.0;
    assert 0.0 <= percent <= 100.0 && x >= 0.0 ==> x * f <= x * 1.0 by {
      if 0.0 <= percent <= 100.0 && x >= 0.0 {
        assert x * (1.0 - f) >= 0.0;
      }
    }
    x * f
  }
}
