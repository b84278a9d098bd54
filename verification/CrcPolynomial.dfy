/** Which CRC the checksum is: long division of polynomials over GF(2), with the coefficients as
    bits, the highest power first. */
module CrcPolynomial {
  import opened Crc32

  type Bits = seq<bool>

  // ----- long division -----

  /** x^32 + x^26 + x^23 + x^22 + x^16 + x^12 + x^11 + x^10 + x^8 + x^7 + x^5 + x^4 + x^2 + x + 1 */
  const EXPONENTS: set<int> := {32, 26, 23, 22, 16, 12, 11, 10, 8, 7, 5, 4, 2, 1, 0}

  function Divisor(): (d: Bits)
    ensures |d| == 33 && forall i :: 0 <= i < 33 ==> d[i] == (32 - i in EXPONENTS)
  {
    seq(33, i => 32 - i in EXPONENTS)
  }

  /** q added to the leading coefficients of p. */
  function AddLeading(p: Bits, q: Bits): (r: Bits)
    requires |q| <= |p|
    ensures |r| == |p| && forall i :: 0 <= i < |p| ==> r[i] == if i < |q| then p[i] != q[i] else p[i]
  {
    seq(|p|, i requires 0 <= i < |p| => if i < |q| then p[i] != q[i] else p[i])
  }

  /** The remainder of p: while a power of at least x^32 is left, the divisor is taken off it. */
  function Remainder(p: Bits): (r: Bits)
    requires |p| >= 32
    ensures |r| == 32
    decreases |p|
  {
    if |p| == 32 then p
    else if p[0] then Remainder(AddLeading(p, Divisor())[1..])
    else Remainder(p[1..])
  }

  // ----- messages as polynomials -----

  function Clear(n: nat): (z: Bits)
    ensures |z| == n && forall i :: 0 <= i < n ==> !z[i]
  {
    seq(n, _ => false)
  }

  predicate Set(b: Byte, m: Byte) {
    b & m != 0
  }

  const BYTE_MASKS: seq<Byte> := [1, 2, 4, 8, 0x10, 0x20, 0x40, 0x80]

  /** A byte is sent low bit first. */
  function ByteBits(b: Byte): (r: Bits)
    ensures |r| == 8 && forall i :: 0 <= i < 8 ==> r[i] == Set(b, BYTE_MASKS[i])
  {
    seq(8, i requires 0 <= i < 8 => Set(b, BYTE_MASKS[i]))
  }

  function MessageBits(data: seq<Byte>): (r: Bits)
    ensures |r| == 8 * |data|
    decreases |data|
  {
    if data == [] then [] else ByteBits(data[0]) + MessageBits(data[1..])
  }

  function Inverse(p: Bits): (r: Bits)
    ensures |r| == |p| && forall i :: 0 <= i < |p| ==> r[i] == !p[i]
  {
    seq(|p|, i requires 0 <= i < |p| => !p[i])
  }

  /** The first 32 coefficients inverted. */
  function InverseFront(p: Bits): (r: Bits)
    requires |p| >= 32
    ensures |r| == |p|
  {
    Inverse(p[..32]) + p[32..]
  }

  predicate Has(w: Word, m: Word) {
    w & m != 0
  }

  /** n bits of a word, from that of the mask m upwards. */
  function BitsFrom(w: Word, m: Word, n: nat): (r: Bits)
    ensures |r| == n
    decreases n
  {
    if n == 0 then [] else [Has(w, m)] + BitsFrom(w, m << 1, n - 1)
  }

  /** The 32 bits of a word, low bit first: a reflected polynomial. */
  function WordBits(w: Word): (r: Bits)
    ensures |r| == 32
  {
    BitsFrom(w, 1, 32)
  }

  // ----- bits of words -----

  /** The mask after so many doublings. */
  function Doubled(m: Word, n: nat): Word
    decreases n
  {
    if n == 0 then m else Doubled(m << 1, n - 1)
  }

  predicate Single(m: Word) {
    m & (m - 1) == 0
  }

  lemma {:induction false} BitsSplit(w: Word, m: Word, a: nat, b: nat)
    ensures BitsFrom(w, m, a + b) == BitsFrom(w, m, a) + BitsFrom(w, Doubled(m, a), b)
    decreases a
  {
    if a > 0 {
      BitsSplit(w, m << 1, a - 1, b);
    }
  }

  lemma Double8(m: Word)
    ensures Doubled(m, 8) == m << 8
  {
    Double4(m);
    Double4(m << 4);
    DoubledSum(m, 4, 4);
    assert (m << 4) << 4 == m << 8;
  }

  lemma Double4(m: Word)
    ensures Doubled(m, 4) == m << 4
  {
    assert Doubled(m, 4) == Doubled(m << 1, 3) == Doubled((m << 1) << 1, 2) == Doubled(((m << 1) << 1) << 1, 1);
    assert ((((m << 1) << 1) << 1) << 1) == m << 4;
  }

  lemma {:induction false} DoubledSum(m: Word, a: nat, b: nat)
    ensures Doubled(m, a + b) == Doubled(Doubled(m, a), b)
    decreases a
  {
    if a > 0 {
      DoubledSum(m << 1, a - 1, b);
    }
  }

  /** Behind the top bit the mask is zero. */
  lemma DoubledOut()
    ensures Doubled(1, 32) == 0 && Doubled(2, 31) == 0
  {
    Double8(1);
    DoubledSum(1, 8, 8);
    Double8(0x100);
    DoubledSum(1, 16, 8);
    Double8(0x1_0000);
    DoubledSum(1, 24, 8);
    Double8(0x100_0000);
    assert Doubled(1, 32) == Doubled(1 << 1, 31);
  }

  lemma SingleNext(m: Word)
    requires Single(m)
    ensures Single(m << 1)
  {
  }

  lemma XorBit(a: Word, b: Word, m: Word)
    requires Single(m)
    ensures (a ^ b) & m != 0 <==> ((a & m != 0) != (b & m != 0))
  {
    assert (a ^ b) & m == (a & m) ^ (b & m);
    assert a & m == 0 || a & m == m;
    assert b & m == 0 || b & m == m;
  }

  lemma BitOfSum(a: Word, b: Word, m: Word)
    requires Single(m)
    ensures Has(Plus(a, b), m) <==> (Has(a, m) != Has(b, m))
  {
    XorBit(a, b, m);
  }

  lemma {:induction false} BitsOfSum(a: Word, b: Word, m: Word, n: nat)
    requires Single(m)
    ensures BitsFrom(Plus(a, b), m, n) == AddLeading(BitsFrom(a, m, n), BitsFrom(b, m, n))
    decreases n
  {
    hide Single, Has, Plus;
    if n > 0 {
      SingleNext(m);
      BitOfSum(a, b, m);
      BitsOfSum(a, b, m << 1, n - 1);
    }
  }

  lemma BitShifted(w: Word, m: Word)
    ensures Has(w >> 1, m) <==> Has(w, m << 1)
  {
  }

  lemma {:induction false} BitsShifted(w: Word, m: Word, n: nat)
    ensures BitsFrom(w >> 1, m, n) == BitsFrom(w, m << 1, n)
    decreases n
  {
    hide Has;
    if n > 0 {
      BitShifted(w, m);
      BitsShifted(w, m << 1, n - 1);
    }
  }

  lemma NextBit(w: Word, m: Word, n: nat)
    ensures BitsFrom(w, m, n + 1) == [Has(w, m)] + BitsFrom(w, m << 1, n)
  {
    hide Has;
  }

  /** Shifting right drops the leading coefficient. */
  lemma ShiftedBits(w: Word)
    ensures WordBits(w >> 1) == WordBits(w)[1..] + [false]
  {
    hide BitsFrom, Has;
    BitsShifted(w, 1, 32);
    OneDoubled();
    BitsSplit(w, 2, 31, 1);
    DoubledOut();
    NextBit(w, 0, 0);
    NoMask(w);
    NextBit(w, 1, 31);
  }

  lemma OneDoubled()
    ensures (1 as Word) << 1 == 2
  {
  }

  lemma NoMask(w: Word)
    ensures !Has(w, 0)
  {
    assert w & 0 == 0;
  }

  lemma {:induction false} NoBits(w: Word, m: Word, n: nat)
    requires w & 0xFFFF_FF00 == 0 && m & 0xFF == 0
    ensures BitsFrom(w, m, n) == Clear(n)
    decreases n
  {
    if n > 0 {
      HighMask(w, m);
      NoBits(w, m << 1, n - 1);
    }
  }

  lemma HighMask(w: Word, m: Word)
    requires w & 0xFFFF_FF00 == 0 && m & 0xFF == 0
    ensures w & m == 0 && (m << 1) & 0xFF == 0
  {
  }

  lemma ExtendedBits(b: Byte)
    ensures WordBits(Extend(b)) == ByteBits(b) + Clear(24)
  {
    BitsSplit(Extend(b), 1, 8, 24);
    Double8(1);
    HighClear(b);
    NoBits(Extend(b), 0x100, 24);
    LowByte(b);
  }

  lemma HighClear(b: Byte)
    ensures Extend(b) & 0xFFFF_FF00 == 0
  {
  }

  lemma LowByte(b: Byte)
    ensures BitsFrom(Extend(b), 1, 8) == ByteBits(b)
  {
    hide BitsFrom, Has, Chain, Extend, ByteBits;
    MaskChains();
    BitsRead(Extend(b), MASKS0);
    ByteMasks(b);
  }

  /** Each mask is twice the one before. */
  predicate Chain(ms: seq<Word>) {
    forall i :: 0 <= i < |ms| - 1 ==> ms[i + 1] == ms[i] << 1
  }

  function Read(w: Word, ms: seq<Word>): (r: Bits)
    ensures |r| == |ms| && forall i :: 0 <= i < |r| ==> r[i] == Has(w, ms[i])
  {
    seq(|ms|, i requires 0 <= i < |ms| => Has(w, ms[i]))
  }

  lemma {:induction false} BitsRead(w: Word, ms: seq<Word>)
    requires Chain(ms) && ms != []
    ensures BitsFrom(w, ms[0], |ms|) == Read(w, ms)
    decreases |ms|
  {
    hide Has;
    if |ms| == 1 {
      assert BitsFrom(w, ms[0] << 1, 0) == [];
    } else {
      BitsRead(w, ms[1..]);
      assert ms[1] == ms[0] << 1;
    }
  }

  lemma ByteMasks(b: Byte)
    ensures Read(Extend(b), MASKS0) == ByteBits(b)
  {
    hide Has, Set, Extend;
    SameMasks();
    forall i | 0 <= i < 8
      ensures Has(Extend(b), MASKS0[i]) == Set(b, BYTE_MASKS[i])
    {
      MaskBit(b, BYTE_MASKS[i]);
    }
  }

  lemma SameMasks()
    ensures forall i :: 0 <= i < 8 ==> MASKS0[i] == Extend(BYTE_MASKS[i])
  {
  }

  lemma MaskBit(b: Byte, m: Byte)
    ensures Has(Extend(b), Extend(m)) == Set(b, m)
  {
  }

  const MASKS0: seq<Word> := [1, 2, 4, 8, 0x10, 0x20, 0x40, 0x80]
  const MASKS1: seq<Word> := [0x100, 0x200, 0x400, 0x800, 0x1000, 0x2000, 0x4000, 0x8000]
  const MASKS2: seq<Word> := [0x1_0000, 0x2_0000, 0x4_0000, 0x8_0000, 0x10_0000, 0x20_0000, 0x40_0000, 0x80_0000]
  const MASKS3: seq<Word> :=
    [0x100_0000, 0x200_0000, 0x400_0000, 0x800_0000, 0x1000_0000, 0x2000_0000, 0x4000_0000, 0x8000_0000]

  lemma MaskChains()
    ensures Chain(MASKS0) && Chain(MASKS1) && Chain(MASKS2) && Chain(MASKS3)
  {
  }

  /** The bits of a word, byte by byte. */
  lemma BytesRead(w: Word)
    ensures WordBits(w) == Read(w, MASKS0) + (Read(w, MASKS1) + (Read(w, MASKS2) + Read(w, MASKS3)))
  {
    hide BitsFrom, Read, Chain;
    MaskChains();
    BitsRead(w, MASKS0);
    BitsRead(w, MASKS1);
    BitsRead(w, MASKS2);
    BitsRead(w, MASKS3);
    BitsSplit(w, 1, 8, 24);
    Double8(1);
    BitsSplit(w, 0x100, 8, 16);
    Double8(0x100);
    BitsSplit(w, 0x1_0000, 8, 8);
    Double8(0x1_0000);
    ByteShifts();
  }

  lemma ByteShifts()
    ensures (1 as Word) << 8 == 0x100 && (0x100 as Word) << 8 == 0x1_0000 && (0x1_0000 as Word) << 8 == 0x100_0000
  {
  }

  /** The constant of the code is the divisor without its leading coefficient, reflected. */
  lemma PolynomialBits()
    ensures WordBits(POLYNOMIAL) == Divisor()[1..]
  {
    hide WordBits, Divisor, Read;
    BytesRead(POLYNOMIAL);
    PolynomialBytes();
    DivisorBits();
  }

  lemma PolynomialBytes()
    ensures Read(POLYNOMIAL, MASKS0) == [false, false, false, false, false, true, false, false]
    ensures Read(POLYNOMIAL, MASKS1) == [true, true, false, false, false, false, false, true]
    ensures Read(POLYNOMIAL, MASKS2) == [false, false, false, true, true, true, false, true]
    ensures Read(POLYNOMIAL, MASKS3) == [true, false, true, true, false, true, true, true]
  {
  }

  lemma DivisorBits()
    ensures Divisor()[1..] == [false, false, false, false, false, true, false, false]
                            + ([true, true, false, false, false, false, false, true]
                            + ([false, false, false, true, true, true, false, true]
                            + [true, false, true, true, false, true, true, true]))
  {
  }

  // ----- a bit step is a step of the division -----

  lemma StepBits(s: Word)
    ensures WordBits(BitStep(s))
         == if WordBits(s)[0] then AddLeading(WordBits(s)[1..] + [false], Divisor()[1..]) else WordBits(s)[1..] + [false]
  {
    hide WordBits, BitStep, Divisor;
    ShiftedBits(s);
    FirstBit(s);
    if s & 1 == 1 {
      OddStep(s);
      PolynomialBits();
      BitsOfSum32(s >> 1, POLYNOMIAL);
      PlusIs(s >> 1, POLYNOMIAL);
    } else {
      LowBit(s);
      EvenStep(s);
    }
  }

  lemma PlusIs(a: Word, b: Word)
    ensures Plus(a, b) == a ^ b
  {
  }

  lemma FirstBit(s: Word)
    ensures WordBits(s)[0] <==> s & 1 == 1
  {
    hide BitsFrom;
    NextBit(s, 1, 31);
    LowBit(s);
  }

  lemma LowBit(s: Word)
    ensures s & 1 == 0 || s & 1 == 1
  {
  }

  /** The divider's state added to the coefficients still to come. */
  function Mixed(s: Word, rest: Bits): (p: Bits)
    requires |rest| >= 32
    ensures |p| == |rest|
  {
    AddLeading(rest, WordBits(s))
  }

  /** Moving the state along by one coefficient. */
  lemma MixShifted(w: Bits, rest: Bits)
    requires |w| == 32 <= |rest|
    ensures AddLeading([false] + rest, w)[0] == w[0]
    ensures AddLeading([false] + rest, w)[1..] == AddLeading(rest, w[1..] + [false])
  {
  }

  lemma MixDivided(w: Bits, d: Bits, rest: Bits)
    requires |w| == 32 <= |rest| && |d| == 33
    ensures AddLeading(AddLeading([false] + rest, w), d)[1..] == AddLeading(rest, AddLeading(w[1..] + [false], d[1..]))
  {
    var p := AddLeading([false] + rest, w);
    MixShifted(w, rest);
    assert AddLeading(p, d)[1..] == AddLeading(p[1..], d[1..]);
  }

  /** A zero coefficient that comes in moves the division on by one bit step. */
  lemma DivideStep(s: Word, rest: Bits)
    requires |rest| >= 32
    ensures Remainder(Mixed(s, [false] + rest)) == Remainder(Mixed(BitStep(s), rest))
  {
    hide BitStep, WordBits, AddLeading, Divisor;
    StepBits(s);
    MixShifted(WordBits(s), rest);
    MixDivided(WordBits(s), Divisor(), rest);
  }

  lemma {:induction false} DivideSteps(s: Word, k: nat, rest: Bits)
    requires |rest| >= 32
    ensures Remainder(Mixed(s, Clear(k) + rest)) == Remainder(Mixed(BitSteps(s, k), rest))
    decreases k
  {
    hide BitStep, Remainder, Mixed;
    if k == 0 {
      assert Clear(0) + rest == rest;
    } else {
      assert Clear(k) + rest == [false] + (Clear(k - 1) + rest);
      DivideStep(s, Clear(k - 1) + rest);
      DivideSteps(BitStep(s), k - 1, rest);
    }
  }

  /** A byte of the message moves the division on by a byte step. */
  lemma DivideByte(s: Word, b: Byte, rest: Bits)
    requires |rest| >= 32
    ensures Remainder(Mixed(s, ByteBits(b) + rest)) == Remainder(Mixed(ByteStep(s, b), rest))
  {
    hide BitStep, Remainder, ByteBits, WordBits, BitSteps, Plus, Extend;
    BitsOfSum32(s, Extend(b));
    ExtendedBits(b);
    assert Mixed(s, ByteBits(b) + rest) == Mixed(Plus(s, Extend(b)), Clear(8) + rest);
    DivideSteps(Plus(s, Extend(b)), 8, rest);
  }

  lemma BitsOfSum32(a: Word, b: Word)
    ensures WordBits(Plus(a, b)) == AddLeading(WordBits(a), WordBits(b))
  {
    BitsOfSum(a, b, 1, 32);
  }

  lemma {:induction false} DivideMessage(s: Word, data: seq<Byte>)
    ensures Remainder(Mixed(s, MessageBits(data) + Clear(32))) == WordBits(Process(s, data))
    decreases |data|
  {
    hide BitStep, ByteBits, WordBits, ByteStep;
    if data == [] {
      assert MessageBits(data) + Clear(32) == Clear(32);
      assert Mixed(s, Clear(32)) == WordBits(s);
    } else {
      var b, more := data[0], data[1..];
      hide Remainder, Mixed;
      assert MessageBits(data) + Clear(32) == ByteBits(b) + (MessageBits(more) + Clear(32));
      DivideByte(s, b, MessageBits(more) + Clear(32));
      DivideMessage(ByteStep(s, b), more);
      ProcessAppend(s, [b], more);
      OneByte(s, b);
      assert [b] + more == data;
    }
  }

  // ----- the bits determine the word -----

  lemma NoneSet(w: Word, ms: seq<Word>)
    requires |ms| == 8 && Read(w, ms) == Clear(8)
    ensures !Has(w, ms[0]) && !Has(w, ms[1]) && !Has(w, ms[2]) && !Has(w, ms[3])
    ensures !Has(w, ms[4]) && !Has(w, ms[5]) && !Has(w, ms[6]) && !Has(w, ms[7])
  {
    hide Has;
    var r := Read(w, ms);
    assert !r[0] && !r[1] && !r[2] && !r[3] && !r[4] && !r[5] && !r[6] && !r[7];
  }

  lemma FirstZero(w: Word)
    requires !Has(w, 1) && !Has(w, 2) && !Has(w, 4) && !Has(w, 8)
    requires !Has(w, 0x10) && !Has(w, 0x20) && !Has(w, 0x40) && !Has(w, 0x80)
    ensures w & 0xFF == 0
  {
  }

  lemma SecondZero(w: Word)
    requires !Has(w, 0x100) && !Has(w, 0x200) && !Has(w, 0x400) && !Has(w, 0x800)
    requires !Has(w, 0x1000) && !Has(w, 0x2000) && !Has(w, 0x4000) && !Has(w, 0x8000)
    ensures w & 0xFF00 == 0
  {
  }

  lemma ThirdZero(w: Word)
    requires !Has(w, 0x1_0000) && !Has(w, 0x2_0000) && !Has(w, 0x4_0000) && !Has(w, 0x8_0000)
    requires !Has(w, 0x10_0000) && !Has(w, 0x20_0000) && !Has(w, 0x40_0000) && !Has(w, 0x80_0000)
    ensures w & 0xFF_0000 == 0
  {
  }

  lemma FourthZero(w: Word)
    requires !Has(w, 0x100_0000) && !Has(w, 0x200_0000) && !Has(w, 0x400_0000) && !Has(w, 0x800_0000)
    requires !Has(w, 0x1000_0000) && !Has(w, 0x2000_0000) && !Has(w, 0x4000_0000) && !Has(w, 0x8000_0000)
    ensures w & 0xFF00_0000 == 0
  {
  }

  lemma ClearMeansZero(w: Word)
    requires WordBits(w) == Clear(32)
    ensures w == 0
  {
    hide Read, BitsFrom, WordBits;
    BytesRead(w);
    var bits := WordBits(w);
    assert bits[..8] == Read(w, MASKS0) && bits[8..16] == Read(w, MASKS1);
    assert bits[16..24] == Read(w, MASKS2) && bits[24..] == Read(w, MASKS3);
    assert bits[..8] == Clear(8) && bits[8..16] == Clear(8) && bits[16..24] == Clear(8) && bits[24..] == Clear(8);
    ByteZero(w);
    AllZero(w);
  }

  lemma ByteZero(w: Word)
    requires Read(w, MASKS0) == Clear(8) && Read(w, MASKS1) == Clear(8)
    requires Read(w, MASKS2) == Clear(8) && Read(w, MASKS3) == Clear(8)
    ensures w & 0xFF == 0 && w & 0xFF00 == 0 && w & 0xFF_0000 == 0 && w & 0xFF00_0000 == 0
  {
    hide Read, Has;
    NoneSet(w, MASKS0);
    FirstZero(w);
    NoneSet(w, MASKS1);
    SecondZero(w);
    NoneSet(w, MASKS2);
    ThirdZero(w);
    NoneSet(w, MASKS3);
    FourthZero(w);
  }

  lemma AllZero(w: Word)
    requires w & 0xFF == 0 && w & 0xFF00 == 0 && w & 0xFF_0000 == 0 && w & 0xFF00_0000 == 0
    ensures w == 0
  {
  }

  /** So a statement about all bits of a word fixes the word. */
  lemma BitsDetermine(a: Word, b: Word)
    ensures WordBits(a) == WordBits(b) <==> a == b
  {
    hide WordBits, Plus;
    if WordBits(a) == WordBits(b) {
      BitsOfSum32(a, b);
      assert WordBits(Plus(a, b)) == Clear(32);
      ClearMeansZero(Plus(a, b));
      PlusZero(a, b);
    }
  }

  // ----- complements -----

  /** The n masks from m on are single bits. */
  predicate Live(m: Word, n: nat)
    decreases n
  {
    n == 0 || (m != 0 && Single(m) && Live(m << 1, n - 1))
  }

  lemma {:induction false} LiveSplit(m: Word, a: nat, b: nat)
    ensures Live(m, a + b) <==> Live(m, a) && Live(Doubled(m, a), b)
    decreases a
  {
    if a > 0 {
      LiveSplit(m << 1, a - 1, b);
    }
  }

  lemma Live4(m: Word)
    requires Single(m) && m & 0x1FFF_FFFF != 0
    ensures Live(m, 4)
  {
    hide Single;
    SingleNext(m);
    SingleNext(m << 1);
    SingleNext((m << 1) << 1);
    FourLive(m);
    assert Live((((m << 1) << 1) << 1) << 1, 0);
    assert Live(((m << 1) << 1) << 1, 1);
    assert Live((m << 1) << 1, 2);
  }

  lemma FourLive(m: Word)
    requires m & 0x1FFF_FFFF != 0
    ensures m != 0 && m << 1 != 0 && (m << 1) << 1 != 0 && ((m << 1) << 1) << 1 != 0
  {
  }

  lemma Live8(m: Word)
    requires Single(m) && m & 0x01FF_FFFF != 0
    ensures Live(m, 8)
  {
    LiveSplit(m, 4, 4);
    Double4(m);
    assert Single(m << 4) && (m << 4) & 0x1FFF_FFFF != 0 && m & 0x1FFF_FFFF != 0;
    Live4(m);
    Live4(m << 4);
  }

  lemma AllLive()
    ensures Live(1, 32)
  {
    hide Live;
    Live8(1);
    Live8(0x100);
    Live8(0x1_0000);
    Live8(0x100_0000);
    Double8(1);
    Double8(0x100);
    Double8(0x1_0000);
    LiveSplit(0x1_0000, 8, 8);
    LiveSplit(0x100, 8, 16);
    LiveSplit(1, 8, 24);
  }

  lemma BitOfComplement(a: Word, m: Word)
    requires m != 0 && Single(m)
    ensures Has(Complement(a), m) <==> !Has(a, m)
  {
    assert a & m == 0 || a & m == m;
    assert !a & m == m ^ (a & m);
  }

  lemma {:induction false} BitsOfComplement(a: Word, m: Word, n: nat)
    requires Live(m, n)
    ensures BitsFrom(Complement(a), m, n) == Inverse(BitsFrom(a, m, n))
    decreases n
  {
    hide Single, Complement, Has;
    if n > 0 {
      BitOfComplement(a, m);
      BitsOfComplement(a, m << 1, n - 1);
    }
  }

  lemma ComplementBits(a: Word)
    ensures WordBits(Complement(a)) == Inverse(WordBits(a))
  {
    hide Complement, Live;
    AllLive();
    BitsOfComplement(a, 1, 32);
  }

  lemma {:induction false} ZeroBits(m: Word, n: nat)
    ensures BitsFrom(ZERO, m, n) == Clear(n)
    decreases n
  {
    if n > 0 {
      assert ZERO & m == 0;
      ZeroBits(m << 1, n - 1);
    }
  }

  /** The initial state inverts the first 32 coefficients. */
  lemma OnesInvert(p: Bits)
    requires |p| >= 32
    ensures Mixed(ONES, p) == InverseFront(p)
  {
    hide WordBits, Complement;
    ComplementBits(ZERO);
    OnesAre();
    ZeroWord();
    assert forall i :: 0 <= i < 32 ==> WordBits(ONES)[i];
  }

  lemma OnesAre()
    ensures Complement(ZERO) == ONES
  {
  }

  lemma ZeroWord()
    ensures WordBits(ZERO) == Clear(32)
  {
    ZeroBits(1, 32);
  }

  /** The checksum is the complement of the reflected remainder of the message, its first 32 bits
      inverted, times x^32. */
  lemma ChecksumIs(data: seq<Byte>)
    ensures WordBits(Checksum(data)) == Inverse(Remainder(InverseFront(MessageBits(data) + Clear(32))))
  {
    hide Process, Remainder, WordBits, Complement;
    var p := MessageBits(data) + Clear(32);
    OnesInvert(p);
    DivideMessage(ONES, data);
    ComplementBits(Process(ONES, data));
  }
}
