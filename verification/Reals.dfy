/** What the clock and the round-trip estimate share about the reals. */
module Reals {
  function Abs(x: real): (a: real)
    ensures a >= 0.0 && (a == x || a == -x)
  {
    if x < 0.0 then -x else x
  }

  function Power(base: real, n: nat): (p: real)
    ensures base >= 0.0 ==> p >= 0.0
  {
    if n == 0 then 1.0 else base * Power(base, n - 1)
  }
}
