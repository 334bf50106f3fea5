/** IEEE-754 binary32 rounding of non-negative reals: round to nearest,
    ties to even. This is what Rust's `f32` arithmetic and its `as f32`
    conversions do to the values the engine's progress computation meets,
    all of which lie far below the overflow threshold. */
module Float32 {
  /** 2^n */
  function Pow2(n: nat): (p: nat)
    ensures p >= 1
  {
    if n == 0 then 1 else 2 * Pow2(n - 1)
  }

  /** 2^e as a real, for any integer exponent. */
  function Scale(e: int): (s: real)
    ensures s > 0.0
  {
    if e >= 0 then Pow2(e) as real else 1.0 / Pow2(-e) as real
  }

  /** The quantum of the subnormals, 2^-149, is the finest spacing. */
  const MIN_EXP: int := -149

  /** 2^24 * 2^104 = 2^128 is the overflow threshold. */
  const MAX_EXP: int := 104

  /** The integer nearest to `y`, and the even one of two equally near. */
  function Nearest(y: real): (n: int)
    ensures y - 0.5 <= n as real <= y + 0.5
    ensures y >= 0.0 ==> n >= 0
    ensures y.Floor as real == y ==> n == y.Floor
  {
    var m := y.Floor;
    var frac := y - m as real;
    if frac > 0.5 || (frac == 0.5 && m % 2 == 1) then m + 1 else m
  }

  /** `x` rounded to a multiple of `s`: to the nearest one, and to the even
      one of two equally near. */
  function RoundTo(x: real, s: real): (r: real)
    requires x >= 0.0 && s > 0.0
    ensures r >= 0.0
    ensures x - s / 2.0 <= r <= x + s / 2.0
  {
    Quotient(x, s);
    HalfStep(x, s, Nearest(x / s) as real);
    Nearest(x / s) as real * s
  }

  /** `x` rounded to a multiple of 2^e. */
  function RoundAt(x: real, e: int): (r: real)
    requires x >= 0.0
    ensures r >= 0.0
    ensures x - Scale(e) / 2.0 <= r <= x + Scale(e) / 2.0
  {
    RoundTo(x, Scale(e))
  }

  /** Dividing a non-negative `x` by a positive `s` and multiplying back. */
  lemma Quotient(x: real, s: real)
    requires x >= 0.0 && s > 0.0
    ensures x / s >= 0.0 && (x / s) * s == x
  {
  }

  /** A multiple `n * s` with `n` within one half of `x / s` lies within
      `s / 2` of `x`. */
  lemma HalfStep(x: real, s: real, n: real)
    requires s > 0.0 && x / s - 0.5 <= n <= x / s + 0.5 && n >= 0.0
    ensures x - s / 2.0 <= n * s <= x + s / 2.0
    ensures n * s >= 0.0
  {
    var d := n - x / s;
    assert n * s == x + d * s;
  }

  /** The spacing exponent of binary32 values near `x`: the largest
      `e <= from` with `x >= 2^23 * 2^e`, or the subnormals' exponent
      when there is none. */
  function Quantum(x: real, from: int): (e: int)
    requires MIN_EXP <= from
    ensures MIN_EXP <= e <= from
    ensures e == MIN_EXP || x >= 8388608.0 * Scale(e)
    ensures e < from ==> x < 8388608.0 * Scale(e + 1)
    decreases from - MIN_EXP
  {
    if from == MIN_EXP || x >= 8388608.0 * Scale(from) then from
    else Quantum(x, from - 1)
  }

  /** The binary32 value nearest to `x`. */
  function Round(x: real): (r: real)
    requires x >= 0.0
    ensures r >= 0.0
    ensures x >= 1.0 ==> r > 0.0
  {
    var e := Quantum(x, MAX_EXP);
    if x >= 1.0 then
      SpacingBelow(x, e);
      RoundAt(x, e)
    else RoundAt(x, e)
  }

  /** `n as f32` for a count `n`. */
  function FromNat(n: nat): (r: real)
    ensures r >= 0.0
    ensures n >= 1 ==> r > 0.0
  {
    Round(n as real)
  }

  /** `a / b` in `f32`. */
  function Div(a: real, b: real): (r: real)
    requires a >= 0.0 && b > 0.0
    ensures r >= 0.0
  {
    Quotient(a, b);
    Round(a / b)
  }

  /** `a * b` in `f32`. */
  function Mul(a: real, b: real): (r: real)
    requires a >= 0.0 && b >= 0.0
    ensures r >= 0.0
  {
    Product(a, b);
    Round(a * b)
  }

  lemma Product(a: real, b: real)
    requires a >= 0.0 && b >= 0.0
    ensures a * b >= 0.0
  {
  }

  /** Where `x` is at least one, its spacing is less than `2 * x`. */
  lemma SpacingBelow(x: real, e: int)
    requires x >= 1.0
    requires e == MIN_EXP || x >= 8388608.0 * Scale(e)
    ensures Scale(e) < 2.0 * x
  {
    if x < 8388608.0 * Scale(e) {
      InverseAtMostOne(Pow2(-e) as real);
    }
  }

  lemma InverseAtMostOne(p: real)
    requires p >= 1.0
    ensures 1.0 / p <= 1.0
  {
  }

  lemma ScaleDouble(e: int)
    ensures Scale(e + 1) == 2.0 * Scale(e)
  {
    if e < -1 {
      var p := Pow2(-e - 1) as real;
      assert Pow2(-e) as real == 2.0 * p;
      assert 1.0 / (2.0 * p) * 2.0 == 1.0 / p;
    }
  }

  lemma {:induction false} ScaleMonotone(a: int, b: int)
    requires a <= b
    ensures Scale(a) <= Scale(b)
    decreases b - a
  {
    if a < b {
      ScaleMonotone(a, b - 1);
      ScaleDouble(b - 1);
    }
  }

  /** Inside the binade of `2^k`, the spacing exponent is `k`. */
  lemma {:induction false} QuantumIs(x: real, k: int, from: int)
    requires MIN_EXP <= k <= from
    requires 8388608.0 * Scale(k) <= x < 16777216.0 * Scale(k)
    ensures Quantum(x, from) == k
    decreases from - k
  {
    if from > k {
      ScaleDouble(k);
      ScaleMonotone(k + 1, from);
      QuantumIs(x, k, from - 1);
    }
  }

  /** A value in the binade of `2^k` rounds at that binade's spacing. */
  lemma RoundIn(x: real, k: int)
    requires MIN_EXP <= k <= MAX_EXP
    requires 8388608.0 * Scale(k) <= x < 16777216.0 * Scale(k)
    ensures Round(x) == RoundAt(x, k)
  {
    QuantumIs(x, k, MAX_EXP);
  }

  /** `n * 2^k` with a 24-bit significand `n` is a binary32 value already. */
  lemma RoundExact(x: real, n: int, k: int)
    requires MIN_EXP <= k <= MAX_EXP
    requires 8388608.0 <= n as real < 16777216.0
    requires x == n as real * Scale(k)
    ensures Round(x) == x
  {
    Between(x, n as real, Scale(k));
    RoundIn(x, k);
    WholeMultiple(x, n, k);
  }

  /** A whole multiple of 2^k is left as it is by rounding at 2^k. */
  lemma WholeMultiple(x: real, n: int, k: int)
    requires n >= 0 && x == n as real * Scale(k)
    ensures RoundAt(x, k) == x
  {
    var s := Scale(k);
    Cancel(x, n as real, s);
    assert Nearest(x / s) == n;
    assert RoundTo(x, s) == x;
  }

  /** Multiplying a significand by a positive `s` keeps it in the binade. */
  lemma Between(x: real, n: real, s: real)
    requires s > 0.0 && 8388608.0 <= n < 16777216.0 && x == n * s
    ensures 8388608.0 * s <= x < 16777216.0 * s
  {
  }

  lemma Cancel(x: real, n: real, s: real)
    requires s > 0.0 && x == n * s
    ensures x / s == n
  {
  }

  // Monotonicity: rounding never reverses the order of two values.

  lemma NearestMonotone(y1: real, y2: real)
    requires y1 <= y2
    ensures Nearest(y1) <= Nearest(y2)
  {
  }

  lemma QuotientOrder(x: real, y: real, s: real)
    requires x <= y && s > 0.0
    ensures x / s <= y / s
  {
  }

  lemma ProductOrder(a: real, b: real, s: real)
    requires a <= b && s >= 0.0
    ensures a * s <= b * s
  {
  }

  /** Rounding at one spacing keeps the order of two values. */
  lemma RoundAtMonotone(x: real, y: real, e: int)
    requires 0.0 <= x <= y
    ensures RoundAt(x, e) <= RoundAt(y, e)
  {
    RoundToMonotone(x, y, Scale(e));
  }

  lemma RoundToMonotone(x: real, y: real, s: real)
    requires 0.0 <= x <= y && s > 0.0
    ensures RoundTo(x, s) <= RoundTo(y, s)
  {
    var m, n := Nearest(x / s), Nearest(y / s);
    NearestOrder(x, y, s);
    MultipleOrder(m, n, s);
    OrderedMultiples(RoundTo(x, s), RoundTo(y, s), m, n, s);
  }

  lemma OrderedMultiples(a: real, b: real, m: int, n: int, s: real)
    requires a == m as real * s && b == n as real * s
    requires m as real * s <= n as real * s
    ensures a <= b
  {
  }

  lemma NearestOrder(x: real, y: real, s: real)
    requires x <= y && s > 0.0
    ensures Nearest(x / s) <= Nearest(y / s)
  {
    QuotientOrder(x, y, s);
    NearestMonotone(x / s, y / s);
  }

  lemma MultipleOrder(m: int, n: int, s: real)
    requires m <= n && s > 0.0
    ensures m as real * s <= n as real * s
  {
    ProductOrder(m as real, n as real, s);
  }

  /** A whole multiple of the spacing bounds a rounded value from the
      side it bounds the value. */
  lemma RoundAtBounds(x: real, e: int, c: nat)
    requires x >= 0.0
    ensures x <= c as real * Scale(e) ==> RoundAt(x, e) <= c as real * Scale(e)
    ensures x >= c as real * Scale(e) ==> RoundAt(x, e) >= c as real * Scale(e)
  {
    RoundToBounds(x, Scale(e), c);
  }

  lemma RoundToBounds(x: real, s: real, c: nat)
    requires x >= 0.0 && s > 0.0
    ensures x <= c as real * s ==> RoundTo(x, s) <= c as real * s
    ensures x >= c as real * s ==> RoundTo(x, s) >= c as real * s
  {
    var n, b := Nearest(x / s), c as real * s;
    if x <= b {
      MultipleBelow(x, c, s);
      MultipleOrder(n, c, s);
      OrderedMultiples(RoundTo(x, s), b, n, c, s);
    }
    if x >= b {
      MultipleAbove(x, c, s);
      MultipleOrder(c, n, s);
      OrderedMultiples(b, RoundTo(x, s), c, n, s);
    }
  }

  lemma MultipleBelow(x: real, c: nat, s: real)
    requires s > 0.0 && x <= c as real * s
    ensures Nearest(x / s) <= c
  {
    Cancel(c as real * s, c as real, s);
    QuotientOrder(x, c as real * s, s);
    NearestMonotone(x / s, c as real);
  }

  lemma MultipleAbove(x: real, c: nat, s: real)
    requires s > 0.0 && x >= c as real * s
    ensures Nearest(x / s) >= c
  {
    Cancel(c as real * s, c as real, s);
    QuotientOrder(c as real * s, x, s);
    NearestMonotone(c as real, x / s);
  }

  /** A value at least `2^23 * 2^e` has a spacing exponent of at least `e`. */
  lemma {:induction false} QuantumAtLeast(y: real, e: int, from: int)
    requires MIN_EXP <= e <= from
    requires y >= 8388608.0 * Scale(e)
    ensures Quantum(y, from) >= e
    decreases from - e
  {
    if from > e && y < 8388608.0 * Scale(from) {
      QuantumAtLeast(y, e, from - 1);
    }
  }

  /** Larger values have coarser (or equal) spacing. */
  lemma QuantumOrder(x: real, y: real)
    requires x <= y
    ensures Quantum(x, MAX_EXP) <= Quantum(y, MAX_EXP)
  {
    var e := Quantum(x, MAX_EXP);
    if e > MIN_EXP {
      QuantumAtLeast(y, e, MAX_EXP);
    }
  }

  /** Rounding to binary32 never reverses the order of two values. */
  lemma RoundMonotone(x: real, y: real)
    requires 0.0 <= x <= y
    ensures Round(x) <= Round(y)
  {
    var e1, e2 := Quantum(x, MAX_EXP), Quantum(y, MAX_EXP);
    QuantumOrder(x, y);
    if e1 == e2 {
      RoundAtMonotone(x, y, e1);
    } else {
      ScaleDouble(e1);
      ScaleMonotone(e1 + 1, e2);
      RoundAtBounds(x, e1, 16777216);
      RoundAtBounds(y, e2, 8388608);
    }
  }

  /** Converting counts to `f32` keeps their order. */
  lemma FromNatMonotone(m: nat, n: nat)
    requires m <= n
    ensures FromNat(m) <= FromNat(n)
  {
    RoundMonotone(m as real, n as real);
  }

  /** `f32` division by a fixed divisor keeps the order of the dividends. */
  lemma DivMonotone(a1: real, a2: real, b: real)
    requires 0.0 <= a1 <= a2 && b > 0.0
    ensures Div(a1, b) <= Div(a2, b)
  {
    Quotient(a1, b);
    QuotientOrder(a1, a2, b);
    RoundMonotone(a1 / b, a2 / b);
  }

  /** `f32` multiplication by a fixed factor keeps the order. */
  lemma MulMonotone(a1: real, a2: real, b: real)
    requires 0.0 <= a1 <= a2 && b >= 0.0
    ensures Mul(a1, b) <= Mul(a2, b)
  {
    Product(a1, b);
    ProductOrder(a1, a2, b);
    RoundMonotone(a1 * b, a2 * b);
  }

  /** A quotient of a value by one at least as large is at most one in
      `f32` as well. */
  lemma DivAtMostOne(a: real, b: real)
    requires 0.0 <= a <= b && b > 0.0
    ensures Div(a, b) <= 1.0
  {
    DivMonotone(a, b, b);
    DivSelf(b);
  }

  /** `as u8` keeps the order of non-negative values. */
  lemma AsU8Monotone(x: real, y: real)
    requires 0.0 <= x <= y
    ensures AsU8(x) <= AsU8(y)
  {
  }

  // Rounding of the particular values a progress computation meets.

  lemma {:induction false} Pow2Add(a: nat, b: nat)
    ensures Pow2(a + b) == Pow2(a) * Pow2(b)
  {
    if a > 0 {
      Pow2Add(a - 1, b);
    }
  }

  lemma Pow2Values()
    ensures Pow2(17) == 131072 && Pow2(18) == 262144
    ensures Pow2(23) == 8388608 && Pow2(24) == 16777216
  {
    assert Pow2(8) == 256;
    Pow2Add(8, 8);
    Pow2Add(16, 7);
    assert Pow2(7) == 128;
    assert Pow2(24) == 2 * Pow2(23);
    assert Pow2(18) == 2 * Pow2(17);
  }

  lemma RoundOne()
    ensures Round(1.0) == 1.0
  {
    Pow2Values();
    RoundExact(1.0, 8388608, -23);
  }

  lemma RoundHundred()
    ensures Round(100.0) == 100.0
  {
    Pow2Values();
    RoundExact(100.0, 13107200, -17);
  }

  /** A positive `f32` divided by itself is exactly one. */
  lemma DivSelf(a: real)
    requires a > 0.0
    ensures Div(a, a) == 1.0
  {
    Cancel(a, 1.0, a);
    RoundOne();
  }

  /** Zero stays zero through every step of the progress expression. */
  lemma NoneDone(total: nat)
    requires total > 0
    ensures Div(FromNat(0), FromNat(total)) == 0.0
    ensures Mul(0.0, 100.0) == 0.0
  {
    RoundZero();
  }

  /** Rounding leaves zero as it is. */
  lemma RoundZero()
    ensures Round(0.0) == 0.0
  {
  }

  /** One times 100 is exactly 100. */
  lemma MulOneHundred()
    ensures Mul(1.0, 100.0) == 100.0
  {
    RoundHundred();
  }

  /** 53 and 100 are binary32 values. */
  lemma FiftyThreeAndHundred()
    ensures FromNat(53) == 53.0 && FromNat(100) == 100.0
  {
    Pow2Values();
    RoundExact(53.0, 13893632, -18);
    RoundHundred();
  }

  /** 0.53 lies between two binary32 values and is nearer the lower. */
  lemma DivFiftyThreeHundred()
    ensures Div(53.0, 100.0) == 8891924.0 / 16777216.0
  {
    Pow2Values();
    assert Scale(-24) == 1.0 / 16777216.0;
    assert 0.53 / Scale(-24) == 8891924.48;
    RoundIn(0.53, -24);
  }

  /** That value times 100 rounds to a value a little below 53. */
  lemma MulJustBelowFiftyThree()
    ensures Mul(8891924.0 / 16777216.0, 100.0) == 13893631.0 / 262144.0
  {
    Pow2Values();
    assert Scale(-18) == 1.0 / 262144.0;
    assert 8891924.0 / 16777216.0 * 100.0 / Scale(-18) == 13893631.25;
    RoundIn(8891924.0 / 16777216.0 * 100.0, -18);
  }

  /** `2^25 - 1` is halfway between two binary32 values, and the tie goes
      to the even significand: up to `2^25`, which is one itself. */
  lemma NearPow25()
    ensures FromNat(0x1FF_FFFF) == 33554432.0 && FromNat(0x200_0000) == 33554432.0
  {
    RoundBelowPow25();
    RoundPow25();
  }

  lemma RoundBelowPow25()
    ensures Round(33554431.0) == 33554432.0
  {
    assert Scale(1) == 2.0;
    assert 33554431.0 / Scale(1) == 16777215.5;
    RoundIn(33554431.0, 1);
  }

  lemma RoundPow25()
    ensures Round(33554432.0) == 33554432.0
  {
    assert Pow2(2) == 4;
    RoundExact(33554432.0, 8388608, 2);
  }

  /** `x as u8` for a non-negative float: truncation, saturating at 255. */
  function AsU8(x: real): (n: nat)
    requires x >= 0.0
    ensures n <= 255
    ensures x < 255.0 ==> n as real <= x < n as real + 1.0
  {
    if x >= 255.0 then 255 else x.Floor
  }
}
