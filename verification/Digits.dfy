/** Quotients and remainders, for code that masks and shifts. */
module Digits {

  lemma DivUnique(u: int, m: int, q: int, r: int)
    requires m > 0 && u == m * q + r && 0 <= r < m
    ensures u / m == q && u % m == r
  {
    var q', r' := u / m, u % m;
    assert m * (q - q') == r' - r;
    MulAway(m, q - q');
  }

  lemma MulAway(m: int, t: int)
    requires m > 0
    ensures t >= 1 ==> m * t >= m
    ensures t <= -1 ==> m * t <= -m
  {}

  /** Base-64 digits: nested quotients are quotients, and the low digits rebuild the low twenty bits. */
  lemma Base64Digits(u: int)
    requires u >= 0
    ensures u / 0x40 / 0x40 == u / 0x1000 && u / 0x1000 / 0x40 == u / 0x4_0000
    ensures u % 0x10_0000 == ((u / 0x4_0000 % 4 * 64 + u / 0x1000 % 64) * 64 + u / 0x40 % 64) * 64 + u % 64
  {
    var q1, d := u / 64, u % 64;
    var q2, c := q1 / 64, q1 % 64;
    var q3, b := q2 / 64, q2 % 64;
    var q4, a := q3 / 4, q3 % 4;
    DivUnique(u, 0x1000, q2, 64 * c + d);
    DivUnique(u, 0x4_0000, q3, (64 * b + c) * 64 + d);
    DivUnique(u, 0x10_0000, q4, ((64 * a + b) * 64 + c) * 64 + d);
  }
}
