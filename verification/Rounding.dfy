/** Rounding an exact fraction of micro-units to a whole number of them: nearest, ties to even. */
module Rounding {
  function RoundDiv(num: int, den: int): (r: int)
    requires den > 0
    ensures -den <= 2 * (r * den - num) <= den
  {
    var q, rest := num / den, num % den;
    if 2 * rest < den || (2 * rest == den && q % 2 == 0) then q else q + 1
  }

  lemma MulOrder(a: int, b: int, c: int)
    requires a <= b && c >= 0
    ensures a * c <= b * c
  {
  }

  lemma MulOrderBack(a: int, b: int, c: int)
    requires a * c <= b * c && c > 0
    ensures a <= b
  {
    if a > b {
      MulOrder(b + 1, a, c);
      assert false;
    }
  }

  /** Whole numbers are not crossed: this and the next need only that the error is at most one half. */
  lemma RoundAtLeast(num: int, den: int, k: int)
    requires den > 0 && k * den <= num
    ensures k <= RoundDiv(num, den)
  {
    var r := RoundDiv(num, den);
    if r < k {
      MulOrder(r + 1, k, den);
      assert false;
    }
  }

  lemma RoundAtMost(num: int, den: int, k: int)
    requires den > 0 && num <= k * den
    ensures RoundDiv(num, den) <= k
  {
    var r := RoundDiv(num, den);
    if k < r {
      MulOrder(k, r - 1, den);
      assert false;
    }
  }

  function FloorRoot(n: nat): (r: nat)
    ensures r * r <= n < (r + 1) * (r + 1)
  {
    if n == 0 then 0
    else
      var s := FloorRoot(n - 1);
      if (s + 1) * (s + 1) <= n then s + 1 else s
  }

  lemma SquareSteps(s: int)
    ensures (s + 1) * (s + 1) == s * s + 2 * s + 1
    ensures (2 * s + 1) * (2 * s + 1) == 4 * (s * s) + 4 * s + 1
    ensures (2 * s - 1) * (2 * s - 1) == 4 * (s * s) - 4 * s + 1
  {
  }

  /** The whole number nearest to the square root; the root of a whole number is never halfway. */
  function NearestRoot(n: nat): (r: nat)
    ensures 4 * n <= (2 * r + 1) * (2 * r + 1)
    ensures r > 0 ==> (2 * r - 1) * (2 * r - 1) < 4 * n
  {
    var s: nat := FloorRoot(n);
    SquareSteps(s);
    SquareSteps(s + 1);
    if n > s * s + s then s + 1 else s
  }
}
