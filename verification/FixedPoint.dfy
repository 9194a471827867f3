/** The reward curve's fixed-point arithmetic: powers by squaring, truncated at every multiplication. */
module FixedPoint {
  import opened Rounding

  const ONE: int := 0x1_0000_0000_0000_0000
  const DECAY_RATE := 18446743806639241216
  const MICRO := 1_000_000
  const BASE_REWARD := 100
  const FLOOR_FIXED := ONE / 2

  function MulShift(x: int, y: int): int {
    (x * y) / ONE
  }

  /** What the loop computes from its three variables. */
  function PowLoop(result: int, b: int, exponent: nat): int
    decreases exponent
  {
    if exponent == 0 then result
    else PowLoop(if exponent % 2 == 1 then MulShift(result, b) else result, MulShift(b, b), exponent / 2)
  }

  function FixedPow(base: int, exponent: nat): int {
    PowLoop(ONE, base, exponent)
  }

  method ComputeFixedPow(base: int, exponent: nat) returns (result: int)
    ensures result == FixedPow(base, exponent)
  {
    result := ONE;
    var b, e := base, exponent;
    while e > 0
      invariant e >= 0 && PowLoop(result, b, e) == FixedPow(base, exponent)
    {
      if e % 2 == 1 {
        result := MulShift(result, b);
      }
      b := MulShift(b, b);
      e := e / 2;
    }
  }

  // --- Exact powers ---

  function RealPow(x: real, n: nat): real {
    if n == 0 then 1.0 else x * RealPow(x, n - 1)
  }

  lemma {:induction false} PowAdd(x: real, m: nat, n: nat)
    ensures RealPow(x, m + n) == RealPow(x, m) * RealPow(x, n)
  {
    if m > 0 {
      PowAdd(x, m - 1, n);
      assert RealPow(x, m + n) == x * (RealPow(x, m - 1) * RealPow(x, n));
    }
  }

  lemma {:induction false} PowSquare(x: real, n: nat)
    ensures RealPow(x * x, n) == RealPow(x, 2 * n)
  {
    if n > 0 {
      PowSquare(x, n - 1);
      PowAdd(x, 2, 2 * (n - 1));
      assert RealPow(x, 1) == x * RealPow(x, 0) == x;
      assert RealPow(x, 2) == x * RealPow(x, 1) == x * x;
    }
  }

  lemma {:induction false} PowUnit(x: real, n: nat)
    requires 0.0 <= x <= 1.0
    ensures 0.0 <= RealPow(x, n) <= 1.0
  {
    if n > 0 {
      PowUnit(x, n - 1);
      UnitProduct(x, RealPow(x, n - 1));
    }
  }

  lemma UnitProduct(x: real, y: real)
    requires 0.0 <= x <= 1.0 && 0.0 <= y <= 1.0
    ensures 0.0 <= x * y <= x && x * y <= y
  {
  }

  lemma {:induction false} PowFalls(x: real, m: nat, n: nat)
    requires 0.0 <= x <= 1.0 && m <= n
    ensures RealPow(x, n) <= RealPow(x, m)
  {
    PowAdd(x, m, n - m);
    PowUnit(x, n - m);
    PowUnit(x, m);
    UnitProduct(RealPow(x, m), RealPow(x, n - m));
  }

  // --- The error of the loop ---

  /** v is x in fixed point, too small by at most err units. */
  ghost predicate Near(v: int, x: real, err: nat) {
    v as real <= x * ONE as real && x * ONE as real <= (v + err) as real
  }

  lemma Truncation(x: int, y: int)
    ensures MulShift(x, y) * ONE <= x * y < MulShift(x, y) * ONE + ONE
  {
  }

  /** Truncating the product of two values adds their errors and one more unit. */
  lemma NearProduct(u: int, x: real, e: nat, v: int, y: real, d: nat)
    requires Near(u, x, e) && Near(v, y, d) && u >= 0 && v >= 0
    requires 0.0 <= x <= 1.0 && 0.0 <= y <= 1.0
    ensures Near(MulShift(u, v), x * y, e + d + 1) && MulShift(u, v) >= 0
  {
    var one := ONE as real;
    var p, q := x * one, y * one;
    var a, b := u as real, v as real;
    Truncation(u, v);
    var m := MulShift(u, v);
    assert m as real * one <= a * b < m as real * one + one;
    ProductBounds(a, p, e as real, b, q, d as real, one);
    assert p * q == (x * y) * one * one;
    CancelOne(m as real, (x * y) * one, (e + d) as real, a * b, one);
    assert (m + (e + d + 1)) as real == m as real + (e + d) as real + 1.0;
  }

  lemma ProductBounds(a: real, p: real, e: real, b: real, q: real, d: real, one: real)
    requires 0.0 <= a <= p <= a + e && 0.0 <= b <= q <= b + d && p <= one && q <= one && e >= 0.0 && d >= 0.0
    ensures a * b <= p * q <= a * b + (e + d) * one
  {
    assert p * q - a * b == (p - a) * q + (q - b) * a;
    assert 0.0 <= (p - a) * q <= e * one by {
      RealOrder(0.0, p - a, q);
      RealOrder(p - a, e, q);
      RealOrder(q, one, e);
    }
    assert 0.0 <= (q - b) * a <= d * one by {
      RealOrder(0.0, q - b, a);
      RealOrder(q - b, d, a);
      RealOrder(a, one, d);
      assert (q - b) * a <= d * a && d * a == a * d && a * d <= one * d;
    }
  }

  lemma RealOrder(x: real, y: real, c: real)
    requires x <= y && c >= 0.0
    ensures x * c <= y * c
  {
  }

  lemma CancelOne(m: real, z: real, err: real, ab: real, one: real)
    requires one > 0.0 && m * one <= ab < m * one + one && ab <= z * one <= ab + err * one
    ensures m <= z <= m + err + 1.0
  {
    if m > z {
      RealStrict(z, m, one);
    }
    if z > m + err + 1.0 {
      RealStrict(m + err + 1.0, z, one);
    }
  }

  lemma RealStrict(x: real, y: real, c: real)
    requires x < y && c > 0.0
    ensures x * c < y * c
  {
  }

  /** What the loop's variables stand for, and how far they may be off. */
  ghost function Exact(x: real, y: real, exponent: nat): real {
    x * RealPow(y, exponent)
  }

  ghost function ErrorBound(e: nat, d: nat, exponent: nat): nat {
    e + exponent * (d + 1)
  }

  lemma OddBit(x: real, y: real, e: nat, d: nat, half: nat)
    ensures Exact(x, y, 2 * half + 1) == Exact(x * y, y * y, half)
    ensures ErrorBound(e, d, 2 * half + 1) == ErrorBound(e + d + 1, 2 * d + 1, half)
  {
    PowSquare(y, half);
    assert RealPow(y, 2 * half + 1) == y * RealPow(y, 2 * half);
  }

  lemma EvenBit(x: real, y: real, e: nat, d: nat, half: nat)
    ensures Exact(x, y, 2 * half) == Exact(x, y * y, half)
    ensures ErrorBound(e, d, 2 * half) == ErrorBound(e, 2 * d + 1, half)
  {
    PowSquare(y, half);
  }

  lemma NoBits(x: real, y: real, e: nat, d: nat)
    ensures Exact(x, y, 0) == x && ErrorBound(e, d, 0) == e
  {
  }

  /** Invariant of the loop: the result so far stands for x with error e, b for y with error d. */
  lemma {:induction false} LoopError(result: int, x: real, e: nat, b: int, y: real, d: nat, exponent: nat)
    requires Near(result, x, e) && Near(b, y, d) && result >= 0 && b >= 0
    requires 0.0 <= x <= 1.0 && 0.0 <= y <= 1.0
    ensures Near(PowLoop(result, b, exponent), Exact(x, y, exponent), ErrorBound(e, d, exponent))
    decreases exponent
  {
    if exponent == 0 {
      NoBits(x, y, e, d);
    } else {
      var half, squared := exponent / 2, MulShift(b, b);
      NearProduct(b, y, d, b, y, d);
      UnitProduct(y, y);
      if exponent == 2 * half + 1 {
        NearProduct(result, x, e, b, y, d);
        UnitProduct(x, y);
        LoopError(MulShift(result, b), x * y, e + d + 1, squared, y * y, 2 * d + 1, half);
        OddBit(x, y, e, d, half);
      } else {
        LoopError(result, x, e, squared, y * y, 2 * d + 1, half);
        EvenBit(x, y, e, d, half);
      }
    }
  }

  lemma {:induction false} LoopNonNegative(result: int, b: int, exponent: nat)
    requires result >= 0 && b >= 0
    ensures PowLoop(result, b, exponent) >= 0
    decreases exponent
  {
    if exponent > 0 {
      ShiftNonNegative(b, b);
      ShiftNonNegative(result, b);
      LoopNonNegative(if exponent % 2 == 1 then MulShift(result, b) else result, MulShift(b, b), exponent / 2);
    }
  }

  lemma ShiftNonNegative(x: int, y: int)
    requires x >= 0 && y >= 0
    ensures MulShift(x, y) >= 0
  {
    assert x * y >= 0;
  }

  /** The truncated power never exceeds the exact one and falls short of it by at most `exponent` units. */
  lemma FixedPowError(base: int, exponent: nat)
    requires 0 <= base <= ONE
    ensures var exact := RealPow(base as real / ONE as real, exponent) * ONE as real;
      exact - exponent as real <= FixedPow(base, exponent) as real <= exact
  {
    var y := base as real / ONE as real;
    assert y * ONE as real == base as real;
    assert 0.0 <= y <= 1.0;
    LoopError(ONE, 1.0, 0, base, y, 0, exponent);
    assert Exact(1.0, y, exponent) == RealPow(y, exponent) && ErrorBound(0, 0, exponent) == exponent;
  }

  /** A higher power can exceed a lower one only by the lower one's truncation error. */
  lemma FixedPowNearlyFalls(base: int, m: nat, n: nat)
    requires 0 <= base <= ONE && m <= n
    ensures FixedPow(base, n) <= FixedPow(base, m) + m
    ensures 0 <= FixedPow(base, n) <= ONE
  {
    var y := base as real / ONE as real;
    assert y * ONE as real == base as real;
    assert 0.0 <= y <= 1.0;
    FixedPowError(base, m);
    FixedPowError(base, n);
    PowFalls(y, m, n);
    RealOrder(RealPow(y, n), RealPow(y, m), ONE as real);
    PowUnit(y, n);
    RealOrder(RealPow(y, n), 1.0, ONE as real);
    LoopNonNegative(ONE, base, n);
    assert FixedPow(base, n) as real <= (FixedPow(base, m) + m) as real;
  }

  // --- The block reward, in micro-units ---

  function RewardFixed(height: nat): int {
    FLOOR_FIXED + MulShift(BASE_REWARD * ONE - FLOOR_FIXED, FixedPow(DECAY_RATE, height))
  }

  function RewardAt(height: nat): int {
    RoundDiv(RewardFixed(height) * MICRO, ONE)
  }

  lemma RewardFixedBounds(height: nat)
    ensures FLOOR_FIXED <= RewardFixed(height) <= BASE_REWARD * ONE
  {
    FixedPowNearlyFalls(DECAY_RATE, 0, height);
    var factor, span := FixedPow(DECAY_RATE, height), BASE_REWARD * ONE - FLOOR_FIXED;
    Truncation(span, factor);
    MulOrder(0, factor, span);
    MulOrder(factor, ONE, span);
    var m := MulShift(span, factor);
    if m > span {
      MulOrder(span + 1, m, ONE);
      assert false;
    }
    if m < 0 {
      MulOrder(m + 1, 0, ONE);
      assert false;
    }
  }

  /** Between half a coin and a hundred coins at every height. */
  lemma RewardBounds(height: nat)
    ensures MICRO / 2 <= RewardAt(height) <= BASE_REWARD * MICRO
  {
    RewardFixedBounds(height);
    RoundAtLeast(RewardFixed(height) * MICRO, ONE, MICRO / 2);
    RoundAtMost(RewardFixed(height) * MICRO, ONE, BASE_REWARD * MICRO);
  }

  // --- The reward against the exact curve ---

  /** Half a coin and 99.5 coins times the power of the decay rate, in millionths. */
  ghost function IdealReward(height: nat): real {
    500_000.0 + 99_500_000.0 * RealPow(18446743806639241216.0 / 18446744073709551616.0, height)
  }

  lemma ScaledReward(height: nat, e: real)
    requires e == RealPow(DECAY_RATE as real / ONE as real, height) * ONE as real
    ensures var r := RewardAt(height) as real * ONE as real;
      var ideal := 500_000.0 * ONE as real + 99_500_000.0 * e;
      ideal - ONE as real / 2.0 - 100_000_000.0 * height as real - 1_000_000.0 <= r <= ideal + ONE as real / 2.0
  {
    var factor := FixedPow(DECAY_RATE, height);
    FixedPowError(DECAY_RATE, height);
    SpanShift(factor);
    var fixed, reward := RewardFixed(height), RewardAt(height);
    assert 2 * fixed <= ONE + 199 * factor <= 2 * fixed + 1;
    assert -ONE <= 2 * (reward * ONE - fixed * MICRO) <= ONE;
    ScaledBounds(reward * ONE, factor, height);
  }

  lemma ScaledBounds(scaled: int, factor: int, height: nat)
    requires -ONE - MICRO <= 2 * scaled - (ONE + 199 * factor) * MICRO <= ONE
    ensures 2.0 * scaled as real <= ONE as real + (ONE as real + 199.0 * factor as real) * 1_000_000.0
    ensures 2.0 * scaled as real >= (ONE as real + 199.0 * factor as real) * 1_000_000.0 - ONE as real - 1_000_000.0
  {
    assert (2 * scaled) as real == 2.0 * scaled as real;
    assert ((ONE + 199 * factor) * MICRO) as real == (ONE as real + 199.0 * factor as real) * 1_000_000.0;
  }

  /** The reward is within half a millionth of the exact curve, less the truncation error: under six trillionths of a
      millionth for each block of height. */
  lemma RewardTracks(height: nat)
    ensures RewardAt(height) as real <= IdealReward(height) + 0.5
    ensures RewardAt(height) as real
      >= IdealReward(height) - 0.5 - (100_000_000.0 * height as real + 1_000_000.0) / 18446744073709551616.0
  {
    var one := ONE as real;
    var e := RealPow(DECAY_RATE as real / one, height) * one;
    var slack := (100_000_000.0 * height as real + 1_000_000.0) / one;
    ScaledReward(height, e);
    assert slack * one == 100_000_000.0 * height as real + 1_000_000.0;
    assert IdealReward(height) * one == 500_000.0 * one + 99_500_000.0 * e;
    if RewardAt(height) as real > IdealReward(height) + 0.5 {
      RealStrict(IdealReward(height) + 0.5, RewardAt(height) as real, one);
    }
    if RewardAt(height) as real < IdealReward(height) - 0.5 - slack {
      RealStrict(RewardAt(height) as real, IdealReward(height) - 0.5 - slack, one);
    }
  }

  // --- When the reward has reached its floor ---

  /** The largest decay factor whose excess over the floor rounds to nothing. */
  const FLOOR_FACTOR := (2 * (ONE / (2 * MICRO)) + 1) / 199
  const FLOOR_HEIGHT: nat := 0x8000_0000

  lemma SpanShift(factor: int)
    ensures MulShift(BASE_REWARD * ONE - FLOOR_FIXED, factor) == (199 * factor) / 2
  {
    var m := (199 * factor) / 2;
    assert (BASE_REWARD * ONE - FLOOR_FIXED) * factor == (ONE / 2) * (199 * factor);
    assert 2 * m <= 199 * factor <= 2 * m + 1;
  }

  lemma RoundsToFloor(excess: int)
    requires excess >= 0
    ensures RoundDiv((FLOOR_FIXED + excess) * MICRO, ONE) == MICRO / 2 <==> excess <= ONE / (2 * MICRO)
  {
  }

  /** The reward is its floor exactly at the heights whose decay factor is at most FLOOR_FACTOR. */
  lemma FloorReachedIff(height: nat)
    ensures RewardAt(height) == MICRO / 2 <==> FixedPow(DECAY_RATE, height) <= FLOOR_FACTOR
  {
    var factor := FixedPow(DECAY_RATE, height);
    SpanShift(factor);
    FixedPowNearlyFalls(DECAY_RATE, 0, height);
    RoundsToFloor((199 * factor) / 2);
  }

  function Squared(b: int, times: nat): int
    decreases times
  {
    if times == 0 then b
    else
      var half := Squared(b, times - 1);
      MulShift(half, half)
  }

  function Doubled(times: nat): nat {
    if times == 0 then 1 else 2 * Doubled(times - 1)
  }

  lemma {:induction false} SquaredFirst(b: int, times: nat)
    ensures Squared(MulShift(b, b), times) == Squared(b, times + 1)
    decreases times
  {
    if times > 0 {
      SquaredFirst(b, times - 1);
    }
  }

  lemma LoopTwice(result: int, b: int, exponent: nat)
    requires exponent > 0
    ensures PowLoop(result, b, 2 * exponent) == PowLoop(result, MulShift(b, b), exponent)
  {
  }

  /** A power of two as exponent is that many squarings. */
  lemma {:induction false} PowOfDoubled(result: int, b: int, times: nat)
    ensures Doubled(times) > 0 && PowLoop(result, b, Doubled(times)) == MulShift(result, Squared(b, times))
    decreases times
  {
    if times == 0 {
      assert PowLoop(MulShift(result, b), MulShift(b, b), 0) == MulShift(result, b);
    } else {
      PowOfDoubled(result, MulShift(b, b), times - 1);
      LoopTwice(result, b, Doubled(times - 1));
      SquaredFirst(b, times - 1);
    }
  }

  lemma Squares0()
    requires Squared(DECAY_RATE, 0) == 18446743806639241216
    ensures Squared(DECAY_RATE, 8) == 18446675703836295384
  {
    assert MulShift(18446743806639241216, 18446743806639241216) == 18446743539568934682;
    assert MulShift(18446743539568934682, 18446743539568934682) == 18446743005428333214;
    assert MulShift(18446743005428333214, 18446743005428333214) == 18446741937147176677;
    assert MulShift(18446741937147176677, 18446741937147176677) == 18446739800585049201;
    assert MulShift(18446739800585049201, 18446739800585049201) == 18446735527461536640;
    assert MulShift(18446735527461536640, 18446735527461536640) == 18446726981217481081;
    assert MulShift(18446726981217481081, 18446726981217481081) == 18446709888741248207;
    assert MulShift(18446709888741248207, 18446709888741248207) == 18446675703836295384;
  }

  lemma Squares8()
    requires Squared(DECAY_RATE, 8) == 18446675703836295384
    ensures Squared(DECAY_RATE, 16) == 18429249654598344217
  {
    assert MulShift(18446675703836295384, 18446675703836295384) == 18446607334216441028;
    assert MulShift(18446607334216441028, 18446607334216441028) == 18446470595736934190;
    assert MulShift(18446470595736934190, 18446470595736934190) == 18446197121818701711;
    assert MulShift(18446197121818701711, 18446197121818701711) == 18445650186145151168;
    assert MulShift(18445650186145151168, 18445650186145151168) == 18444556363448024791;
    assert MulShift(18444556363448024791, 18444556363448024791) == 18442368912640208022;
    assert MulShift(18442368912640208022, 18442368912640208022) == 18437994789262627603;
    assert MulShift(18437994789262627603, 18437994789262627603) == 18429249654598344217;
  }

  lemma Squares16()
    requires Squared(DECAY_RATE, 16) == 18429249654598344217
    ensures Squared(DECAY_RATE, 24) == 14468716672555073222
  {
    assert MulShift(18429249654598344217, 18429249654598344217) == 18411771826745670879;
    assert MulShift(18411771826745670879, 18411771826745670879) == 18376865881891951998;
    assert MulShift(18376865881891951998, 18376865881891951998) == 18307252395958067462;
    assert MulShift(18307252395958067462, 18307252395958067462) == 18168815534605844546;
    assert MulShift(18168815534605844546, 18168815534605844546) == 17895074415923848101;
    assert MulShift(17895074415923848101, 17895074415923848101) == 17359903030684525397;
    assert MulShift(17359903030684525397, 17359903030684525397) == 16337096239345530648;
    assert MulShift(16337096239345530648, 16337096239345530648) == 14468716672555073222;
  }

  lemma Squares24()
    requires Squared(DECAY_RATE, 24) == 14468716672555073222
    ensures Squared(DECAY_RATE, 31) == 579744
  {
    assert MulShift(14468716672555073222, 14468716672555073222) == 11348548086002427259;
    assert MulShift(11348548086002427259, 11348548086002427259) == 6981695151496206376;
    assert MulShift(6981695151496206376, 6981695151496206376) == 2642421177073523433;
    assert MulShift(2642421177073523433, 2642421177073523433) == 378516102849715530;
    assert MulShift(378516102849715530, 378516102849715530) == 7766922961799655;
    assert MulShift(7766922961799655, 7766922961799655) == 3270229806055;
    assert MulShift(3270229806055, 3270229806055) == 579744;
  }

  lemma FactorAtFloorHeight()
    ensures Doubled(31) == FLOOR_HEIGHT && FixedPow(DECAY_RATE, FLOOR_HEIGHT) == 579744
  {
    Squares0();
    Squares8();
    Squares16();
    Squares24();
    DoubledTo31();
    PowOfDoubled(ONE, DECAY_RATE, 31);
  }

  lemma DoubledTo31()
    ensures Doubled(31) == FLOOR_HEIGHT
  {
    assert Doubled(8) == 0x100;
    assert Doubled(16) == 0x1_0000;
    assert Doubled(24) == 0x100_0000;
  }

  /** From height 2^31 on the reward is the floor itself, although it is documented as never reaching it. */
  lemma FloorFromHeight(height: nat)
    requires height >= FLOOR_HEIGHT
    ensures RewardAt(height) == MICRO / 2
  {
    FactorAtFloorHeight();
    FixedPowNearlyFalls(DECAY_RATE, FLOOR_HEIGHT, height);
    FloorReachedIff(height);
  }
}
