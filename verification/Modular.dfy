/** Division with remainder, for the proofs that compute modulo something. */
module Modular {

  lemma MultipleAtLeast(m: int, t: int)
    requires m >= 0 && t >= 1
    ensures m * t >= m && m * -t == -(m * t)
  {
    assert m * t == m + m * (t - 1);
  }

  lemma SmallMultiple(m: int, t: int)
    requires m > 0 && -m < m * t < m
    ensures t == 0
  {
    if t >= 1 {
      MultipleAtLeast(m, t);
    } else if t <= -1 {
      MultipleAtLeast(m, -t);
    }
  }

  lemma ModUnique(x: int, m: int, k: int, r: int)
    requires 0 <= r < m && x == m * k + r
    ensures x % m == r && x / m == k
  {
    var d, e := x / m, x % m;
    assert x == m * d + e;
    assert m * (d - k) == m * d - m * k == r - e;
    SmallMultiple(m, d - k);
  }
}
