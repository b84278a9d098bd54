/** The CRC-32 that guards the GPT header and its entry array, and the damage it detects. */
module Crc32 {
  type Byte = bv8

  /** A 32-bit word; Plus is exclusive or. */
  type Word = bv32

  const ZERO: Word := 0
  const ONES: Word := 0xFFFF_FFFF
  const POLYNOMIAL: bv32 := 0xEDB8_8320

  function Plus(a: Word, b: Word): Word {
    a ^ b
  }

  function Extend(b: Byte): Word {
    b as bv32
  }

  // ----- the checksum -----

  /** `mask = -(crc & 1); crc = (crc >> 1) ^ (0xEDB88320 & mask)` */
  function BitStep(crc: Word): Word {
    (crc >> 1) ^ (POLYNOMIAL & (0 - (crc & 1)))
  }

  function BitSteps(crc: Word, n: nat): Word
    decreases n
  {
    if n == 0 then crc else BitSteps(BitStep(crc), n - 1)
  }

  function ByteStep(crc: Word, b: Byte): Word {
    BitSteps(Plus(crc, Extend(b)), 8)
  }

  function Process(crc: Word, data: seq<Byte>): Word
    decreases |data|
  {
    if data == [] then crc else ByteStep(Process(crc, data[..|data| - 1]), data[|data| - 1])
  }

  function Complement(a: Word): Word {
    !a
  }

  function Checksum(data: seq<Byte>): Word {
    Complement(Process(ONES, data))
  }

  /** crc32 */
  method ComputeCrc32(data: array<Byte>, len: nat) returns (r: Word)
    requires len <= data.Length
    ensures r == Checksum(data[..len])
  {
    hide Plus, Extend, BitStep, BitSteps, Complement;
    var i := 0;
    var crc := ONES;
    while i < len
      invariant 0 <= i <= len && crc == Process(ONES, data[..i])
    {
      crc := ProcessByte(crc, data[i]);
      assert data[..i + 1][..i] == data[..i];
      i := i + 1;
    }
    r := Complement(crc);
  }

  /** The inner loop. */
  method ProcessByte(before: Word, b: Byte) returns (crc: Word)
    ensures crc == ByteStep(before, b)
  {
    hide Plus, Extend, BitStep;
    crc := Plus(before, Extend(b));
    var j := 7;
    while j >= 0
      invariant -1 <= j <= 7
      invariant BitSteps(crc, j + 1) == ByteStep(before, b)
    {
      crc := BitStep(crc);
      j := j - 1;
    }
  }

  // ----- linearity and injectivity -----

  lemma BitStepLinear(a: Word, b: Word)
    ensures BitStep(Plus(a, b)) == Plus(BitStep(a), BitStep(b))
  {
    assert (a ^ b) & 1 == (a & 1) ^ (b & 1);
    assert (a ^ b) >> 1 == (a >> 1) ^ (b >> 1);
    assert a & 1 == 0 || a & 1 == 1;
    assert b & 1 == 0 || b & 1 == 1;
  }

  /** The top bit of the polynomial keeps the bit that falls out. */
  lemma BitStepZero(a: Word)
    ensures BitStep(a) == ZERO <==> a == ZERO
  {
  }

  lemma {:induction false} BitStepsLinear(a: Word, b: Word, n: nat)
    ensures BitSteps(Plus(a, b), n) == Plus(BitSteps(a, n), BitSteps(b, n))
    decreases n
  {
    hide BitStep, Plus;
    if n > 0 {
      BitStepLinear(a, b);
      BitStepsLinear(BitStep(a), BitStep(b), n - 1);
    }
  }

  lemma {:induction false} BitStepsZero(a: Word, n: nat)
    ensures BitSteps(a, n) == ZERO <==> a == ZERO
    decreases n
  {
    hide BitStep, Plus;
    if n > 0 {
      BitStepZero(a);
      BitStepsZero(BitStep(a), n - 1);
    }
  }

  lemma {:induction false} BitStepsSplit(a: Word, n: nat, m: nat)
    ensures BitSteps(a, n + m) == BitSteps(BitSteps(a, n), m)
    decreases n
  {
    hide BitStep;
    if n > 0 {
      BitStepsSplit(BitStep(a), n - 1, m);
    }
  }

  // ----- differences of messages -----

  function ByteXor(a: Byte, b: Byte): Byte {
    a ^ b
  }

  function Xor(m: seq<Byte>, n: seq<Byte>): (d: seq<Byte>)
    requires |m| == |n|
    ensures |d| == |m|
    ensures forall i :: 0 <= i < |d| ==> d[i] == ByteXor(m[i], n[i])
  {
    seq(|m|, i requires 0 <= i < |m| => ByteXor(m[i], n[i]))
  }

  lemma ExtendLinear(a: Byte, b: Byte)
    ensures Extend(ByteXor(a, b)) == Plus(Extend(a), Extend(b))
  {
  }

  lemma ByteXorZero(a: Byte, b: Byte)
    ensures ByteXor(a, b) == 0 <==> a == b
  {
  }

  lemma Associate(a: Word, b: Word, c: Word)
    ensures Plus(a, Plus(b, c)) == Plus(Plus(a, b), c)
  {
  }

  lemma Commute(a: Word, b: Word)
    ensures Plus(a, b) == Plus(b, a)
  {
  }

  lemma Rearrange(a: Word, b: Word, c: Word, d: Word)
    ensures Plus(Plus(a, b), Plus(c, d)) == Plus(Plus(a, c), Plus(b, d))
  {
    hide Plus;
    Associate(Plus(a, b), c, d);
    Associate(a, b, c);
    Commute(b, c);
    Associate(a, c, b);
    Associate(Plus(a, c), b, d);
  }

  lemma XorSelf(x: bv32, y: bv32)
    ensures x ^ y == 0 <==> x == y
    ensures x ^ 0 == x && 0 ^ x == x
  {
  }

  lemma PlusZero(a: Word, b: Word)
    ensures Plus(a, b) == ZERO <==> a == b
    ensures Plus(a, ZERO) == a && Plus(ZERO, a) == a
  {
    XorSelf(a, b);
  }

  /** The difference of two checksums depends on the difference of the messages alone. */
  lemma {:induction false} ProcessLinear(a: Word, b: Word, m: seq<Byte>, n: seq<Byte>)
    requires |m| == |n|
    ensures Process(Plus(a, b), Xor(m, n)) == Plus(Process(a, m), Process(b, n))
    decreases |m|
  {
    hide Plus, Extend, ByteXor, BitSteps;
    if m != [] {
      var k := |m| - 1;
      ProcessLinear(a, b, m[..k], n[..k]);
      assert Xor(m, n)[..k] == Xor(m[..k], n[..k]);
      var p, q := Process(a, m[..k]), Process(b, n[..k]);
      ExtendLinear(m[k], n[k]);
      Rearrange(p, q, Extend(m[k]), Extend(n[k]));
      BitStepsLinear(Plus(p, Extend(m[k])), Plus(q, Extend(n[k])), 8);
    }
  }

  function Zeros(n: nat): (z: seq<Byte>)
    ensures |z| == n && forall i :: 0 <= i < n ==> z[i] == 0
  {
    seq(n, _ => 0)
  }

  lemma ExtendZero(b: Byte)
    ensures Extend(b) == ZERO <==> b == 0
  {
  }

  lemma {:induction false} ProcessZeros(a: Word, n: nat)
    ensures Process(a, Zeros(n)) == ZERO <==> a == ZERO
    decreases n
  {
    hide Plus, Extend, BitSteps;
    if n > 0 {
      assert Zeros(n)[..n - 1] == Zeros(n - 1);
      ProcessZeros(a, n - 1);
      ExtendZero(0);
      PlusZero(Process(a, Zeros(n - 1)), ZERO);
      BitStepsZero(Process(a, Zeros(n - 1)), 8);
    }
  }

  lemma {:induction false} ProcessAppend(a: Word, m: seq<Byte>, n: seq<Byte>)
    ensures Process(a, m + n) == Process(Process(a, m), n)
    decreases |n|
  {
    hide ByteStep;
    if n == [] {
      assert m + n == m;
    } else {
      var k := |n| - 1;
      ProcessAppend(a, m, n[..k]);
      assert (m + n)[..|m| + k] == m + n[..k];
    }
  }

  // ----- up to four bytes act as one little-endian word -----

  function Shift8(a: Word): Word {
    a << 8
  }

  function Le(w: seq<Byte>): Word {
    if w == [] then ZERO else Plus(Extend(w[0]), Shift8(Le(w[1..])))
  }

  /** The bytes from the k-th on are clear. */
  predicate Below(a: Word, k: nat) {
    if k == 0 then a == ZERO
    else if k == 1 then a & 0xFFFF_FF00 == 0
    else if k == 2 then a & 0xFFFF_0000 == 0
    else if k == 3 then a & 0xFF00_0000 == 0
    else true
  }

  lemma ClearBytes(b: Byte, a: bv32)
    ensures a == 0 ==> (b as bv32 ^ (a << 8)) & 0xFFFF_FF00 == 0
    ensures a & 0xFFFF_FF00 == 0 ==> (b as bv32 ^ (a << 8)) & 0xFFFF_0000 == 0
    ensures a & 0xFFFF_0000 == 0 ==> (b as bv32 ^ (a << 8)) & 0xFF00_0000 == 0
    ensures a == 0 || a & 0xFFFF_FF00 == 0 || a & 0xFFFF_0000 == 0 ==> a & 0xFF00_0000 == 0
    ensures a & 0xFF00_0000 == 0 && b as bv32 ^ (a << 8) == 0 ==> b == 0 && a == 0
  {
  }

  lemma BelowStep(b: Byte, a: Word, k: nat)
    requires Below(a, k)
    ensures Below(Plus(Extend(b), Shift8(a)), k + 1)
  {
    ClearBytes(b, a);
  }

  lemma {:induction false} LeBelow(w: seq<Byte>)
    ensures Below(Le(w), |w|)
  {
    hide Plus, Extend, Shift8, Below;
    if w == [] {
      BelowZero();
    } else {
      LeBelow(w[1..]);
      BelowStep(w[0], Le(w[1..]), |w| - 1);
    }
  }

  lemma BelowZero()
    ensures Below(ZERO, 0)
  {
  }

  lemma NoOverlap(b: Byte, a: Word)
    requires Below(a, 3) && Plus(Extend(b), Shift8(a)) == ZERO
    ensures b == 0 && a == ZERO
  {
    ClearBytes(b, a);
  }

  lemma BelowMore(a: Word, k: nat)
    requires k <= 3 && Below(a, k)
    ensures Below(a, 3)
  {
    ClearBytes(0, a);
  }

  lemma {:induction false} LeZero(w: seq<Byte>)
    requires |w| <= 4 && Le(w) == ZERO
    ensures w == Zeros(|w|)
    decreases |w|
  {
    hide Plus, Extend, Shift8, Below;
    if w != [] {
      LeBelow(w[1..]);
      BelowMore(Le(w[1..]), |w| - 1);
      NoOverlap(w[0], Le(w[1..]));
      LeZero(w[1..]);
    }
  }

  /** A word moved up by at most eight bits. */
  function Up(a: Word, k: nat): Word {
    if k == 0 then a
    else if k == 1 then a << 1
    else if k == 2 then a << 2
    else if k == 3 then a << 3
    else if k == 4 then a << 4
    else if k == 5 then a << 5
    else if k == 6 then a << 6
    else if k == 7 then a << 7
    else a << 8
  }

  lemma Down1(a: Word)
    requires a & 0xFF00_0000 == 0
    ensures BitStep(a << 1) == a
  {
    assert ((a << 1) >> 1) ^ (POLYNOMIAL & (0 - ((a << 1) & 1))) == a;
  }

  lemma Down2(a: Word)
    requires a & 0xFF00_0000 == 0
    ensures BitStep(a << 2) == a << 1
  {
    assert ((a << 2) >> 1) ^ (POLYNOMIAL & (0 - ((a << 2) & 1))) == a << 1;
  }

  lemma Down3(a: Word)
    requires a & 0xFF00_0000 == 0
    ensures BitStep(a << 3) == a << 2
  {
    assert ((a << 3) >> 1) ^ (POLYNOMIAL & (0 - ((a << 3) & 1))) == a << 2;
  }

  lemma Down4(a: Word)
    requires a & 0xFF00_0000 == 0
    ensures BitStep(a << 4) == a << 3
  {
    assert ((a << 4) >> 1) ^ (POLYNOMIAL & (0 - ((a << 4) & 1))) == a << 3;
  }

  lemma Down5(a: Word)
    requires a & 0xFF00_0000 == 0
    ensures BitStep(a << 5) == a << 4
  {
    assert ((a << 5) >> 1) ^ (POLYNOMIAL & (0 - ((a << 5) & 1))) == a << 4;
  }

  lemma Down6(a: Word)
    requires a & 0xFF00_0000 == 0
    ensures BitStep(a << 6) == a << 5
  {
    assert ((a << 6) >> 1) ^ (POLYNOMIAL & (0 - ((a << 6) & 1))) == a << 5;
  }

  lemma Down7(a: Word)
    requires a & 0xFF00_0000 == 0
    ensures BitStep(a << 7) == a << 6
  {
    assert ((a << 7) >> 1) ^ (POLYNOMIAL & (0 - ((a << 7) & 1))) == a << 6;
  }

  lemma Down8(a: Word)
    requires a & 0xFF00_0000 == 0
    ensures BitStep(a << 8) == a << 7
  {
    assert ((a << 8) >> 1) ^ (POLYNOMIAL & (0 - ((a << 8) & 1))) == a << 7;
  }

  /** As long as no set bit falls out a step only shifts. */
  lemma UpStep(a: Word, k: nat)
    requires a & 0xFF00_0000 == 0 && 1 <= k <= 8
    ensures BitStep(Up(a, k)) == Up(a, k - 1)
  {
    hide BitStep;
    if k == 1 {
      Down1(a);
    } else if k == 2 {
      Down2(a);
    } else if k == 3 {
      Down3(a);
    } else if k == 4 {
      Down4(a);
    } else if k == 5 {
      Down5(a);
    } else if k == 6 {
      Down6(a);
    } else if k == 7 {
      Down7(a);
    } else {
      Down8(a);
    }
  }

  lemma {:induction false} UpSteps(a: Word, k: nat)
    requires Below(a, 3) && k <= 8
    ensures BitSteps(Up(a, k), k) == a
    decreases k
  {
    hide BitStep;
    if k > 0 {
      UpStep(a, k);
      UpSteps(a, k - 1);
    }
  }

  /** Eight steps on a word whose low byte is clear only shift. */
  lemma ShiftSteps(a: Word)
    requires Below(a, 3)
    ensures BitSteps(Shift8(a), 8) == a
  {
    hide BitStep, BitSteps;
    UpSteps(a, 8);
    assert Up(a, 8) == Shift8(a);
  }

  /** Processing at most four bytes is adding their word and stepping all bits. */
  lemma {:induction false} WindowWord(a: Word, w: seq<Byte>)
    requires |w| <= 4
    ensures Process(a, w) == BitSteps(Plus(a, Le(w)), 8 * |w|)
    decreases |w|
  {
    hide Plus, Extend, Shift8, Below, BitSteps, Le;
    if w == [] {
      EmptyWindow(a);
    } else {
      var b, rest := w[0], w[1..];
      assert w == [b] + rest;
      ProcessAppend(a, [b], rest);
      OneByte(a, b);
      WindowWord(ByteStep(a, b), rest);
      LeBelow(rest);
      BelowMore(Le(rest), |rest|);
      WordShift(a, b, Le(rest));
      LeUnfold(w);
      BitStepsSplit(Plus(a, Le(w)), 8, 8 * |rest|);
    }
  }

  lemma EmptyWindow(a: Word)
    ensures Process(a, []) == BitSteps(Plus(a, Le([])), 8 * 0)
  {
    PlusZero(a, ZERO);
  }

  lemma OneByte(a: Word, b: Byte)
    ensures Process(a, [b]) == ByteStep(a, b)
  {
    assert [b][..0] == [];
  }

  lemma LeUnfold(w: seq<Byte>)
    requires w != []
    ensures Le(w) == Plus(Extend(w[0]), Shift8(Le(w[1..])))
  {
  }

  lemma WordShift(a: Word, b: Byte, r: Word)
    requires Below(r, 3)
    ensures BitSteps(Plus(a, Plus(Extend(b), Shift8(r))), 8) == Plus(ByteStep(a, b), r)
  {
    ShiftSteps(r);
    hide Plus, Extend, Shift8, Below, BitSteps;
    BitStepsLinear(Plus(a, Extend(b)), Shift8(r), 8);
    Associate(a, Extend(b), Shift8(r));
  }

  // ----- detection -----

  /** m and n agree outside the `w` bytes from i on. */
  predicate SameOutside(m: seq<Byte>, n: seq<Byte>, i: nat, w: nat)
    requires i + w <= |m| && |m| == |n|
  {
    m[..i] == n[..i] && m[i + w..] == n[i + w..]
  }

  /** Equal checksums mean that the difference of the messages leads from zero to zero. */
  lemma ChecksumsEqual(m: seq<Byte>, n: seq<Byte>)
    requires |m| == |n|
    ensures Checksum(m) == Checksum(n) <==> Process(ZERO, Xor(m, n)) == ZERO
  {
    hide Plus, Complement, ByteStep;
    ProcessLinear(ONES, ONES, m, n);
    OnesCancel();
    PlusZero(Process(ONES, m), Process(ONES, n));
    ComplementSame(Process(ONES, m), Process(ONES, n));
  }

  lemma OnesCancel()
    ensures Plus(ONES, ONES) == ZERO
  {
  }

  /** A difference of at most four bytes between zeros leads from zero to zero only when its
      word is zero. */
  lemma WindowCounts(before: nat, window: seq<Byte>, after: nat)
    requires |window| <= 4
    ensures Process(ZERO, Zeros(before) + window + Zeros(after)) == ZERO <==> Le(window) == ZERO
  {
    hide Plus, Le, BitSteps, ByteStep, Zeros, Process;
    ProcessAppend(ZERO, Zeros(before) + window, Zeros(after));
    ProcessAppend(ZERO, Zeros(before), window);
    ProcessZeros(ZERO, before);
    WindowWord(ZERO, window);
    PlusZero(ZERO, Le(window));
    PlusZero(Le(window), ZERO);
    BitStepsZero(Le(window), 8 * |window|);
    ProcessZeros(Process(ZERO, window), after);
  }

  /** Two messages of one length that differ only inside four consecutive bytes have
      different checksums. */
  lemma BurstDetected(m: seq<Byte>, n: seq<Byte>, i: nat, w: nat)
    requires |m| == |n| && w <= 4 && i + w <= |m| && SameOutside(m, n, i, w)
    ensures Checksum(m) == Checksum(n) <==> m == n
  {
    hide Process, Le, Zeros, Checksum, Xor;
    var window := Xor(m, n)[i..i + w];
    DifferenceShape(m, n, i, w);
    WindowCounts(i, window, |m| - i - w);
    ChecksumsEqual(m, n);
    if Le(window) == ZERO {
      LeZero(window);
      SameWindow(m, n, i, w);
    }
  }

  lemma DifferenceShape(m: seq<Byte>, n: seq<Byte>, i: nat, w: nat)
    requires |m| == |n| && i + w <= |m| && SameOutside(m, n, i, w)
    ensures Xor(m, n) == Zeros(i) + Xor(m, n)[i..i + w] + Zeros(|m| - i - w)
  {
    var d := Xor(m, n);
    forall k | 0 <= k < |m| && (k < i || i + w <= k)
      ensures d[k] == 0
    {
      if k < i {
        assert m[..i][k] == n[..i][k];
      } else {
        assert m[i + w..][k - i - w] == n[i + w..][k - i - w];
      }
      ByteXorZero(m[k], n[k]);
    }
  }

  lemma SameWindow(m: seq<Byte>, n: seq<Byte>, i: nat, w: nat)
    requires |m| == |n| && i + w <= |m| && SameOutside(m, n, i, w)
    requires Xor(m, n)[i..i + w] == Zeros(w)
    ensures m == n
  {
    var window := Xor(m, n)[i..i + w];
    forall k | i <= k < i + w
      ensures m[k] == n[k]
    {
      assert window[k - i] == ByteXor(m[k], n[k]);
      ByteXorZero(m[k], n[k]);
    }
    assert m == m[..i] + m[i..i + w] + m[i + w..];
    assert n == n[..i] + n[i..i + w] + n[i + w..];
  }

  lemma ComplementSame(a: Word, b: Word)
    ensures Complement(a) == Complement(b) <==> a == b
  {
  }

  // ----- steering -----

  /** The word whose bit step is x. */
  function BackStep(x: Word): Word {
    if x & 0x8000_0000 == 0 then x << 1 else ((x ^ POLYNOMIAL) << 1) | 1
  }

  lemma BackStepIs(x: Word)
    ensures BitStep(BackStep(x)) == x
  {
    var y := BackStep(x);
    if x & 0x8000_0000 == 0 {
      EvenStep(y);
      ShiftBack(x);
    } else {
      ShiftBackOne(x ^ POLYNOMIAL);
      TopBit(x);
      OddStep(y);
      XorTwice(x);
    }
  }

  lemma EvenStep(y: bv32)
    requires y & 1 == 0
    ensures BitStep(y) == y >> 1
  {
    ZeroMask(y >> 1);
  }

  lemma ZeroMask(z: bv32)
    ensures z ^ (POLYNOMIAL & 0) == z
  {
  }

  lemma OddStep(y: bv32)
    requires y & 1 == 1
    ensures BitStep(y) == (y >> 1) ^ POLYNOMIAL
  {
  }

  lemma ShiftBack(x: bv32)
    requires x & 0x8000_0000 == 0
    ensures (x << 1) & 1 == 0 && (x << 1) >> 1 == x
  {
  }

  lemma ShiftBackOne(z: bv32)
    ensures ((z << 1) | 1) & 1 == 1
    ensures z & 0x8000_0000 == 0 ==> ((z << 1) | 1) >> 1 == z
  {
  }

  lemma TopBit(x: bv32)
    requires x & 0x8000_0000 != 0
    ensures (x ^ POLYNOMIAL) & 0x8000_0000 == 0
  {
  }

  lemma XorTwice(x: bv32)
    ensures (x ^ POLYNOMIAL) ^ POLYNOMIAL == x
  {
  }

  function BackSteps(x: Word, n: nat): Word {
    if n == 0 then x else BackStep(BackSteps(x, n - 1))
  }

  lemma {:induction false} BackStepsIs(x: Word, n: nat)
    ensures BitSteps(BackSteps(x, n), n) == x
  {
    hide BitStep, BackStep;
    if n > 0 {
      BackStepIs(BackSteps(x, n - 1));
      BackStepsIs(x, n - 1);
    }
  }

  /** The four bytes of a word, low byte first. */
  function LeBytes(x: Word): (w: seq<Byte>)
    ensures |w| == 4
  {
    [(x & 0xFF) as bv8, ((x >> 8) & 0xFF) as bv8, ((x >> 16) & 0xFF) as bv8, ((x >> 24) & 0xFF) as bv8]
  }

  lemma LeBytesIs(x: Word)
    ensures Le(LeBytes(x)) == x
  {
    var w := LeBytes(x);
    LeFour(w);
    FourBytes(x);
  }

  lemma LeFour(w: seq<Byte>)
    requires |w| == 4
    ensures Le(w)
         == Plus(Extend(w[0]), Shift8(Plus(Extend(w[1]), Shift8(Plus(Extend(w[2]), Shift8(Plus(Extend(w[3]), Shift8(ZERO))))))))
  {
    hide Plus, Extend, Shift8;
    assert w[1..][0] == w[1] && w[1..][1..] == w[2..] && w[2..][0] == w[2] && w[2..][1..] == w[3..];
    assert w[3..][0] == w[3] && w[3..][1..] == [];
    LeUnfold(w);
    LeUnfold(w[1..]);
    LeUnfold(w[2..]);
    LeUnfold(w[3..]);
  }

  lemma FourBytes(x: bv32)
    ensures (x & 0xFF) as bv8 as bv32
            ^ ((((x >> 8) & 0xFF) as bv8 as bv32
                ^ ((((x >> 16) & 0xFF) as bv8 as bv32 ^ ((((x >> 24) & 0xFF) as bv8 as bv32 ^ (0 << 8)) << 8)) << 8)) << 8) == x
  {
  }

  /** Four bytes that lead from any state to any other. */
  function Steer(a: Word, t: Word): (w: seq<Byte>)
    ensures |w| == 4
  {
    LeBytes(Plus(a, BackSteps(t, 32)))
  }

  lemma SteerIs(a: Word, t: Word)
    ensures Process(a, Steer(a, t)) == t
  {
    hide BitSteps, BackSteps, LeBytes, Le, Process;
    var x := BackSteps(t, 32);
    WindowWord(a, Steer(a, t));
    LeBytesIs(Plus(a, x));
    PlusTwice(a, x);
    BackStepsIs(t, 32);
  }

  lemma PlusTwice(a: Word, b: Word)
    ensures Plus(a, Plus(a, b)) == b
  {
  }

  /** n is another message of the same length, equal outside the window, with the same checksum. */
  ghost predicate Unnoticed(m: seq<Byte>, n: seq<Byte>, i: nat, w: nat)
    requires i + w <= |m|
  {
    |n| == |m| && SameOutside(m, n, i, w) && n != m && Checksum(n) == Checksum(m)
  }

  /** In every message and every window there is unnoticed damage exactly when the window is
      longer than four bytes. */
  lemma BurstExact(m: seq<Byte>, i: nat, w: nat)
    requires i + w <= |m|
    ensures (exists n :: Unnoticed(m, n, i, w)) <==> w > 4
  {
    hide Checksum, SameOutside;
    if w > 4 {
      LongBurst(m, i, w);
    } else {
      forall n
        ensures !Unnoticed(m, n, i, w)
      {
        if |n| == |m| && SameOutside(m, n, i, w) {
          BurstDetected(m, n, i, w);
        }
      }
    }
  }

  /** One byte changed and the last four bytes of the window steered back. */
  lemma LongBurst(m: seq<Byte>, i: nat, w: nat)
    requires i + w <= |m| && w > 4
    ensures exists n :: Unnoticed(m, n, i, w)
  {
    hide Process, Steer, Complement;
    var b: Byte := if m[i] == 0 then 1 else 0;
    var front := m[..i] + [b] + m[i + 1..i + w - 4];
    var t := Process(ONES, m[..i + w]);
    var head := front + Steer(Process(ONES, front), t);
    var n := head + m[i + w..];
    ProcessAppend(ONES, front, Steer(Process(ONES, front), t));
    SteerIs(Process(ONES, front), t);
    ProcessAppend(ONES, head, m[i + w..]);
    ProcessAppend(ONES, m[..i + w], m[i + w..]);
    assert m == m[..i + w] + m[i + w..];
    assert n[i] == b && n[..i] == m[..i] && n[i + w..] == m[i + w..];
    assert Unnoticed(m, n, i, w);
  }
}
