/** How long a number gets when it is written with digits. */
module Decimals {
  /** The number of decimal digits. */
  function Figures(n: nat): nat {
    if n < 10 then 1 else Figures(n / 10) + 1
  }

  function Pow10(k: nat): nat {
    if k == 0 then 1 else 10 * Pow10(k - 1)
  }

  lemma {:induction false} FiguresBound(n: nat, k: nat)
    requires k > 0 && n < Pow10(k)
    ensures Figures(n) <= k
    decreases k
  {
    if n >= 10 {
      FiguresBound(n / 10, k - 1);
    }
  }

  /** A 32-bit number has no more than ten digits. */
  lemma IntFigures(n: nat)
    requires n <= 0x8000_0000
    ensures Figures(n) <= 10
  {
    assert Pow10(10) == 10_000_000_000;
    FiguresBound(n, 10);
  }
}
