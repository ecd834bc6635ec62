/** Python's `round(x, n)` for the confidences, on real numbers. */
module Numbers {

  /** The integer nearest to `t`, a tie going to the even one (Python's `round(t)`). */
  function RoundHalfEven(t: real): (m: int)
    ensures -0.5 <= m as real - t <= 0.5
    ensures m as real - t == 0.5 || m as real - t == -0.5 ==> m % 2 == 0
  {
    var n := t.Floor;
    var f := t - n as real;
    if f > 0.5 || (f == 0.5 && n % 2 == 1) then n + 1 else n
  }

  /** An integer rounds to itself. */
  lemma RoundHalfEvenInt(k: int)
    ensures RoundHalfEven(k as real) == k
  {
    assert (k as real).Floor == k;
  }

  /** `round(x, 2)`. */
  function Round2(x: real): (r: real)
    ensures -0.005 <= r - x <= 0.005
  {
    RoundHalfEven(x * 100.0) as real / 100.0
  }

  /** `round(x, 4)`. */
  function Round4(x: real): (r: real)
    ensures -0.00005 <= r - x <= 0.00005
    ensures 0.0 <= x <= 1.0 ==> 0.0 <= r <= 1.0
  {
    var m := RoundHalfEven(x * 10000.0);
    assert 0.0 <= x <= 1.0 ==> 0 <= m <= 10000;
    m as real / 10000.0
  }

  /** A value with at most two decimals is left as it is by `round(x, 2)`. */
  lemma Round2Exact(k: int)
    ensures Round2(k as real / 100.0) == k as real / 100.0
  {
    assert (k as real / 100.0) * 100.0 == k as real;
    RoundHalfEvenInt(k);
  }

  /** A value with at most four decimals is left as it is by `round(x, 4)`. */
  lemma Round4Exact(k: int)
    ensures Round4(k as real / 10000.0) == k as real / 10000.0
  {
    assert (k as real / 10000.0) * 10000.0 == k as real;
    RoundHalfEvenInt(k);
  }

  /** A tie goes to the even neighbour: 0.125 rounds to 0.12 and 0.375 to 0.38. */
  lemma Round2Ties()
    ensures Round2(0.125) == 0.12 && Round2(0.375) == 0.38
  {
    assert (12.5).Floor == 12;
    assert (37.5).Floor == 37;
  }
}
