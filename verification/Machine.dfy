/** Machine words and the address arithmetic the kernel writes with masks. */
module Machine {
  const U64: nat := 0x1_0000_0000_0000_0000
  const P32: nat := 0x1_0000_0000

  /** Unsigned 64-bit arithmetic: `x % U64`, without division (see Wrap64Is). */
  function Wrap64(x: nat): (r: nat)
    ensures r < U64
    ensures x < U64 ==> r == x
  {
    if x < U64 then x else Wrap64(x - U64)
  }

  lemma {:induction false} Wrap64Is(x: nat)
    ensures Wrap64(x) == x % U64
  {
    if x >= U64 {
      Wrap64Is(x - U64);
    }
  }

  type Byte = x: nat | x < 256 witness 0

  datatype Option<+T> = None | Some(value: T)

  /** `x % a == 0`, without division (see MultipleIsMod). */
  predicate Multiple(x: nat, a: nat)
    requires a > 0
  {
    x == 0 || (x >= a && Multiple(x - a, a))
  }

  /** The multiple of `a` at or below `x`: `x & ~(a - 1)` for a power of two `a`. */
  function AlignDown(x: nat, a: nat): (r: nat)
    requires a > 0
    ensures r <= x < r + a && Multiple(r, a)
  {
    if x < a then 0 else a + AlignDown(x - a, a)
  }

  /** The multiple of `a` at or above `x`: `(x + a - 1) & ~(a - 1)` for a power of two `a`. */
  function AlignUp(x: nat, a: nat): (r: nat)
    requires a > 0
    ensures x <= r < x + a && Multiple(r, a)
  {
    AlignDown(x + a - 1, a)
  }

  lemma {:induction false} AlignDownIs(x: nat, a: nat)
    requires a > 0
    ensures AlignDown(x, a) == x / a * a == x - x % a
  {
    if x < a {
      DivUnique(x, a, 0, x);
    } else {
      AlignDownIs(x - a, a);
      var q, r := (x - a) / a, (x - a) % a;
      assert x - a == q * a + r;
      assert x == (q + 1) * a + r;
      DivUnique(x, a, q + 1, r);
    }
  }

  lemma {:induction false} MultipleIsMod(x: nat, a: nat)
    requires a > 0
    ensures Multiple(x, a) <==> x % a == 0
  {
    if x >= a {
      MultipleIsMod(x - a, a);
      var q, r := (x - a) / a, (x - a) % a;
      assert x - a == q * a + r;
      assert x == (q + 1) * a + r;
      DivUnique(x, a, q + 1, r);
    } else {
      DivUnique(x, a, 0, x);
    }
  }

  /** Quotient and remainder are determined by the division equation. */
  lemma DivUnique(x: int, a: int, q: int, r: int)
    requires a > 0 && x == q * a + r && 0 <= r < a
    ensures x / a == q && x % a == r
  {
    var d := x / a - q;
    assert d * a == r - x % a by {
      assert x == x / a * a + x % a;
    }
    assert d >= 1 ==> d * a >= a;
    assert d <= -1 ==> d * a <= -a;
  }

  lemma PlusModulo(x: nat, y: nat)
    ensures (x % P32 + y) % P32 == (x + y) % P32
  {
    var r := x % P32;
    DivUnique(x + y, P32, x / P32 + (r + y) / P32, (r + y) % P32);
  }

  // ----- powers of two -----

  /** `n` is `p` doubled some number of times. */
  predicate Doubled(n: nat, p: nat)
    requires p > 0
    decreases n - p
  {
    n == p || (p < n && Doubled(n, p + p))
  }

  predicate PowerOfTwo(n: nat) {
    Doubled(n, 1)
  }

  lemma {:induction false} MultiplesAdd(x: nat, y: nat, a: nat)
    requires a > 0 && Multiple(x, a) && Multiple(y, a)
    ensures Multiple(x + y, a)
  {
    if x > 0 {
      MultiplesAdd(x - a, y, a);
      assert x + y - a == x - a + y;
    }
  }

  lemma {:induction false} DoubledMultiple(n: nat, p: nat, a: nat)
    requires p > 0 && a > 0 && Doubled(n, p) && Multiple(p, a)
    ensures Multiple(n, a)
    decreases n - p
  {
    if n != p {
      MultiplesAdd(p, p, a);
      DoubledMultiple(n, p + p, a);
    }
  }

  lemma {:induction false} DoubledDivides(a: nat, b: nat, p: nat)
    requires p > 0 && Doubled(a, p) && Doubled(b, p) && a <= b
    ensures a > 0 && Multiple(b, a)
    decreases a - p
  {
    if a == p {
      assert Multiple(a, a);
      DoubledMultiple(b, a, a);
    } else {
      DoubledDivides(a, b, p + p);
    }
  }

  /** Of two powers of two the smaller divides the larger. */
  lemma PowersDivide(a: nat, b: nat)
    requires PowerOfTwo(a) && PowerOfTwo(b) && a <= b
    ensures a > 0 && Multiple(b, a)
  {
    DoubledDivides(a, b, 1);
  }

  /** A multiple of the larger of two powers of two is one of the smaller. */
  lemma {:induction false} MultipleOfPower(x: nat, b: nat, a: nat)
    requires PowerOfTwo(a) && PowerOfTwo(b) && a <= b && Multiple(x, b)
    ensures Multiple(x, a)
  {
    if x > 0 {
      MultipleOfPower(x - b, b, a);
      PowersDivide(a, b);
      MultiplesAdd(x - b, b, a);
    }
  }

  lemma {:induction false} AlignDownUnique(x: nat, m: nat, a: nat)
    requires a > 0 && Multiple(m, a) && m <= x < m + a
    ensures AlignDown(x, a) == m
  {
    if m > 0 {
      AlignDownUnique(x - a, m - a, a);
    }
  }

  /** From a multiple of `a`, the one below or at x is reached in steps shorter than `a`. */
  lemma AlignDownFrom(x: nat, m: nat, a: nat)
    requires a > 0 && Multiple(m, a)
    ensures AlignDown(x, a) == m <==> m <= x < m + a
  {
    var r := AlignDown(x, a);
    if m <= x < m + a {
      AlignDownUnique(x, m, a);
    }
  }

  // ----- masks -----

  /** `x & ~m`, bit by bit. */
  function AndNot(x: nat, m: nat): (r: nat)
    ensures r <= x
    decreases x
  {
    if x == 0 then 0 else 2 * AndNot(x / 2, m / 2) + (if x % 2 == 1 && m % 2 == 0 then 1 else 0)
  }

  /** `x & m` */
  function And(x: nat, m: nat): nat {
    x - AndNot(x, m)
  }

  /** `x & ~(a - 1)`, for any a. */
  function Mask(x: nat, a: nat): (r: nat)
    requires a > 0
    ensures r <= x
  {
    AndNot(x, a - 1)
  }

  lemma {:induction false} DoubledHalf(n: nat, p: nat)
    requires p > 0
    ensures Doubled(2 * n, 2 * p) <==> Doubled(n, p)
    decreases n - p
  {
    if p < n {
      DoubledHalf(n, p + p);
      assert 2 * (p + p) == 2 * p + 2 * p;
    }
  }

  lemma {:induction false} DoubledEven(n: nat, p: nat)
    requires p > 0 && p % 2 == 0 && Doubled(n, p)
    ensures n % 2 == 0
    decreases n - p
  {
    if n != p {
      DoubledEven(n, p + p);
    }
  }

  /** Doubling keeps a power of two, and every one but 1 is such a double. */
  lemma PowerHalf(n: nat)
    requires n > 0
    ensures PowerOfTwo(2 * n) <==> PowerOfTwo(n)
    ensures n % 2 == 1 ==> (PowerOfTwo(n) <==> n == 1)
  {
    DoubledHalf(n, 1);
    assert Doubled(2 * n, 1) == Doubled(2 * n, 2);
    if n > 1 && PowerOfTwo(n) {
      DoubledEven(n, 2);
    }
  }

  lemma {:induction false} DoubledGap(n: nat, m: nat, p: nat)
    requires p > 0 && Doubled(n, p) && Doubled(m, p) && n < m
    ensures 2 * n <= m
    decreases n - p
  {
    if n == p {
      DoubledLeast(m, p + p);
    } else {
      DoubledGap(n, m, p + p);
    }
  }

  lemma DoubledLeast(n: nat, p: nat)
    requires p > 0 && Doubled(n, p)
    ensures p <= n
  {
  }

  function Power(k: nat): (n: nat)
    ensures n > 0
  {
    if k == 0 then 1 else 2 * Power(k - 1)
  }

  lemma {:induction false} PowerIs(k: nat)
    ensures PowerOfTwo(Power(k))
  {
    if k > 0 {
      PowerIs(k - 1);
      PowerHalf(Power(k - 1));
    }
  }

  lemma {:induction false} PowerSum(j: nat, k: nat)
    ensures Power(j + k) == Power(j) * Power(k)
  {
    if k > 0 {
      PowerSum(j, k - 1);
    }
  }

  /** 2^63 */
  const HALF: nat := 0x8000_0000_0000_0000

  lemma HalfPower()
    ensures PowerOfTwo(HALF) && PowerOfTwo(U64)
  {
    PowerIs(64);
    assert Power(1) == 2 && Power(2) == 4;
    PowerSum(2, 2);
    PowerSum(4, 4);
    PowerSum(8, 8);
    PowerSum(16, 16);
    PowerSum(32, 32);
    PowerHalf(HALF);
  }

  /** A power of two below 2^64 is at most 2^63, one below 2^63 at most 2^62. */
  lemma PowerBelow(a: nat)
    requires PowerOfTwo(a) && a < U64
    ensures a <= HALF && (a < HALF ==> 2 * a <= HALF)
  {
    HalfPower();
    DoubledGap(a, U64, 1);
    if a < HALF {
      DoubledGap(a, HALF, 1);
    }
  }

  lemma {:induction false} MultipleDouble(x: nat, a: nat)
    requires a > 0 && Multiple(x, a)
    ensures Multiple(2 * x, 2 * a)
  {
    if x > 0 {
      MultipleDouble(x - a, a);
      assert 2 * (x - a) == 2 * x - 2 * a;
    }
  }

  /** For a power of two the mask rounds down to a multiple. */
  lemma {:induction false} MaskAligns(x: nat, a: nat)
    requires a > 0 && PowerOfTwo(a)
    ensures Mask(x, a) == AlignDown(x, a)
    decreases a
  {
    if a == 1 {
      AndNotZero(x);
      AlignDownUnique(x, x, 1);
    } else {
      PowerHalf(a);
      var b := a / 2;
      PowerHalf(b);
      MaskAligns(x / 2, b);
      MaskHalf(x, b);
      MultipleDouble(AlignDown(x / 2, b), b);
      AlignDownUnique(x, 2 * AlignDown(x / 2, b), a);
    }
  }

  lemma MaskHalf(x: nat, b: nat)
    requires b > 0
    ensures Mask(x, 2 * b) == 2 * Mask(x / 2, b)
  {
    assert (2 * b - 1) / 2 == b - 1 && (2 * b - 1) % 2 == 1;
  }

  lemma {:induction false} AndNotZero(x: nat)
    ensures AndNot(x, 0) == x && Multiple(x, 1)
    decreases x
  {
    if x > 0 {
      AndNotZero(x / 2);
      AndNotZero(x - 1);
    }
  }

  lemma {:induction false} AndNotSelf(x: nat)
    ensures AndNot(x, x) == 0
  {
    if x > 0 {
      AndNotSelf(x / 2);
    }
  }

  /** What the mask of a leaves of a itself: its lowest bit, all of it for a power of two. */
  lemma {:induction false} LowestBit(a: nat)
    requires a > 0
    ensures 0 < Mask(a, a) && (Mask(a, a) == a <==> PowerOfTwo(a))
    decreases a
  {
    PowerHalf(a);
    var b := a / 2;
    if a % 2 == 1 {
      assert (a - 1) / 2 == b && (a - 1) % 2 == 0;
      AndNotSelf(b);
      assert Mask(a, a) == 1;
    } else {
      assert a == 2 * b;
      LowestBit(b);
      PowerHalf(b);
      MaskHalf(a, b);
    }
  }

  /** The test `a & (a - 1)` tells powers of two from the rest. */
  lemma PowerTest(a: nat)
    requires a > 0
    ensures And(a, a - 1) == 0 <==> PowerOfTwo(a)
  {
    LowestBit(a);
  }

  /** And for any other number there is an address the mask does not align. */
  lemma MaskExact(a: nat)
    requires a > 0
    ensures (forall x: nat :: Multiple(Mask(x, a), a)) <==> PowerOfTwo(a)
  {
    if PowerOfTwo(a) {
      forall x: nat
        ensures Multiple(Mask(x, a), a)
      {
        MaskAligns(x, a);
      }
    } else {
      LowestBit(a);
      assert Mask(a, a) < a;
    }
  }

  // ----- low bits -----

  lemma SeventhBit(x: nat)
    ensures And(x, 0x80) == x / 128 % 2 * 128
  {
    hide And;
    EightTimes(x, 16);
    EightTimes(x / 8, 2);
    AndDouble(x / 8 / 8, 1);
    AndOne(x / 8 / 8 / 2);
    Quotients(x);
  }

  lemma EightTimes(x: nat, m: nat)
    ensures And(x, 8 * m) == 8 * And(x / 8, m)
  {
    hide And;
    AndDouble(x, 4 * m);
    AndDouble(x / 2, 2 * m);
    AndDouble(x / 2 / 2, m);
    assert x / 2 / 2 / 2 == x / 8;
  }

  lemma Quotients(x: nat)
    ensures x / 8 / 8 / 2 == x / 128
  {
  }

  /** `x & 2 m` for a mask without bit 0. */
  lemma AndDouble(x: nat, m: nat)
    ensures And(x, 2 * m) == 2 * And(x / 2, m)
  {
  }

  lemma AndOne(x: nat)
    ensures And(x, 1) == x % 2
  {
    AndNotZero(x / 2);
  }

  lemma LowNibble(x: nat)
    ensures And(x, 0x0F) == x % 16
  {
    hide And;
    AndOdd(x, 7);
    AndOdd(x / 2, 3);
    AndOdd(x / 2 / 2, 1);
    AndOne(x / 2 / 2 / 2);
    HalfModulo(x, 8);
    HalfModulo(x / 2, 4);
    HalfModulo(x / 2 / 2, 2);
  }

  lemma AndOdd(x: nat, m: nat)
    ensures And(x, 2 * m + 1) == 2 * And(x / 2, m) + x % 2
  {
  }

  lemma HalfModulo(x: nat, m: nat)
    requires m > 0
    ensures x % (2 * m) == 2 * (x / 2 % m) + x % 2
  {
    var h, b := x / 2, x % 2;
    var q, r := h / m, h % m;
    assert h == q * m + r;
    assert x == q * (2 * m) + (2 * r + b);
    DivUnique(x, 2 * m, q, 2 * r + b);
  }

  /** Bits 0, 1 and 2. */
  lemma ThreeBits(x: nat)
    ensures And(x, 1) == x % 2
    ensures And(x, 2) == 2 * (x / 2 % 2)
    ensures And(x, 4) == 4 * (x / 4 % 2)
  {
    hide And;
    AndOne(x);
    AndDouble(x, 1);
    AndOne(x / 2);
    AndDouble(x, 2);
    AndDouble(x / 2, 1);
    AndOne(x / 2 / 2);
    assert x / 2 / 2 == x / 4;
  }
}
