/** The Internet checksum. Bytes are the memory of a little-endian machine; masks and shifts
    by 8 and 16 bits are written as remainders and quotients. */
module Checksum {
  import opened Machine
  import opened Memory

  type Word = x: nat | x < 0x1_0000 witness 0
  const M: nat := 0xFFFF
  /** Up to this many bytes the 32-bit sum cannot overflow. */
  const EXACT: nat := 131074

  /** The word with these two bytes, the low one first. */
  function Pair(lo: Byte, hi: Byte): Word {
    256 * (hi as nat) + lo
  }

  function Bswap16(x: Word): Word {
    Pair(x / 256, x % 256)
  }

  /** Swapping the bytes is multiplying by 256 modulo 65535. */
  lemma SwapTimes(x: Word)
    ensures Bswap16(x) % M == 256 * x % M
  {
    var hi, lo := x / 256, x % 256;
    assert 256 * x == 256 * lo + hi + hi * M;
    ModPlus(256 * lo + hi, hi);
  }

  function Bswap32(x: nat): nat
    requires x < P32
  {
    x % 256 * 0x100_0000 + x / 256 % 256 * 0x1_0000 + x / 0x1_0000 % 256 * 256 + x / 0x100_0000
  }

  // ----- sums of words -----

  /** The 16-bit words as the machine reads them, and a last odd byte. */
  function NativeSum(d: seq<Byte>): nat {
    if d == [] then 0 else if |d| == 1 then d[0] else Pair(d[0], d[1]) + NativeSum(d[2..])
  }

  /** RFC 1071: words in network order, an odd byte padded with zero on the right. */
  function NetworkSum(d: seq<Byte>): nat {
    if d == [] then 0 else if |d| == 1 then Pair(0, d[0]) else Pair(d[1], d[0]) + NetworkSum(d[2..])
  }

  /** x in one's complement: the word that equals x modulo 65535 and is zero only when x is. */
  predicate IsFolded(x: nat, r: nat) {
    r <= M && r % M == x % M && (r == 0 <==> x == 0)
  }

  lemma FoldedOnce(x: nat, y: nat, r: nat, q: nat)
    requires IsFolded(x, r) && IsFolded(y, q) && x % M == y % M && (x == 0 <==> y == 0)
    ensures r == q
  {
  }

  /** fold 32 -> 16 */
  function Fold(x: nat): (r: Word)
    ensures IsFolded(x, r)
  {
    if x < 0x1_0000 then x else Carry(x); Fold(x % 0x1_0000 + x / 0x1_0000)
  }

  lemma Carry(x: nat)
    requires x >= 0x1_0000
    ensures 0 < x % 0x1_0000 + x / 0x1_0000 < x
    ensures (x % 0x1_0000 + x / 0x1_0000) % M == x % M
  {
    var hi := x / 0x1_0000;
    assert x == x % 0x1_0000 + hi + hi * M;
    ModPlus(x % 0x1_0000 + hi, hi);
  }

  lemma {:induction false} ModPlus(x: nat, k: nat)
    ensures (x + k * M) % M == x % M
    decreases k
  {
    if k > 0 {
      ModPlus(x, k - 1);
      assert x + k * M == (x + (k - 1) * M) + M;
    }
  }

  /** checksum of the bytes, as the machine returns it. */
  function Sum16(d: seq<Byte>): Word {
    M - Fold(NativeSum(d) % P32)
  }

  lemma {:induction false} SumBound(d: seq<Byte>)
    ensures NativeSum(d) <= (|d| + 1) / 2 * M
    decreases |d|
  {
    if |d| > 1 {
      SumBound(d[2..]);
    }
  }

  lemma SumExact(d: seq<Byte>)
    requires |d| <= EXACT
    ensures Sum16(d) == M - Fold(NativeSum(d))
  {
    hide NativeSum, Fold;
    SumBound(d);
    assert (|d| + 1) / 2 <= 65537;
  }

  /** The sum of all-ones data. */
  lemma {:induction false} AllOnes(n: nat)
    ensures NativeSum(seq(2 * n, _ => 255)) == n * M
  {
    if n > 0 {
      var d: seq<Byte> := seq(2 * n, _ => 255);
      assert d[2..] == seq(2 * (n - 1), _ => 255);
      AllOnes(n - 1);
    }
  }

  /** For every length an int can hold, the result is right exactly when the sum fits in 32
      bits. */
  lemma SumRight(d: seq<Byte>)
    requires |d| < 0x8000_0000
    ensures Sum16(d) == M - Fold(NativeSum(d)) <==> NativeSum(d) < P32
  {
    hide NativeSum, Fold;
    SumBound(d);
    var n := NativeSum(d);
    assert (|d| + 1) / 2 <= 0x4000_0000;
    if n >= P32 {
      var q, r := n / P32, n % P32;
      assert n == q * P32 + r && 0 < q < M;
      WrapLoses(r, q);
      assert r + q * P32 == n;
    }
  }

  /** Every wrap of the sum loses one modulo 65535. */
  lemma WrapLoses(r: nat, q: nat)
    requires 0 < q < M
    ensures (r + q * P32) % M != r % M
  {
    assert r + q * P32 == (r + q) + q * 0x1_0001 * M;
    ModPlus(r + q, q * 0x1_0001);
    ModShift(r, q);
  }

  lemma ModShift(r: nat, q: nat)
    requires 0 < q < M
    ensures (r + q) % M != r % M
  {
  }

  lemma ExactIsSharp()
    ensures Sum16(seq(EXACT + 2, _ => 255)) != M - Fold(NativeSum(seq(EXACT + 2, _ => 255)))
  {
    hide NativeSum, Fold, Sum16;
    AllOnes(65538);
    assert 2 * 65538 == EXACT + 2;
    SumRight(seq(EXACT + 2, _ => 255));
  }

  method Compute(data: seq<Byte>) returns (r: Word)
    ensures r == Sum16(data)
  {
    hide Fold, Pair;
    var sum: nat, p: nat, len := 0, 0, |data|;
    while len > 1
      invariant 0 <= len && p + len == |data|
      invariant 0 <= sum < P32 && (sum + NativeSum(data[p..])) % P32 == NativeSum(data) % P32
    {
      assert data[p..][2..] == data[p + 2..];
      var word: nat := Pair(data[p], data[p + 1]);
      WrapAdd(sum, word, NativeSum(data[p + 2..]));
      sum := (sum + word) % P32;
      p, len := p + 2, len - 2;
    }
    if len == 1 {
      var word: nat := data[p];
      WrapAdd(sum, word, 0);
      sum := (sum + word) % P32;
    }
    r := FoldComplement(sum);
  }

  lemma WrapAdd(a: nat, b: nat, c: nat)
    ensures ((a + b) % P32 + c) % P32 == (a + (b + c)) % P32
  {
  }

  /** The folding loop and the complement. */
  method FoldComplement(total: nat) returns (r: Word)
    requires total < P32
    ensures r == M - Fold(total)
  {
    hide IsFolded;
    var sum: nat := total;
    while sum / 0x1_0000 != 0
      invariant sum < P32 && Fold(sum) == Fold(total)
      decreases sum
    {
      Carry(sum);
      sum := sum % 0x1_0000 + sum / 0x1_0000;
    }
    r := M - sum;
  }

  // ----- byte order -----

  lemma {:induction false} SumOrder(d: seq<Byte>)
    ensures NetworkSum(d) % M == 256 * NativeSum(d) % M
    ensures NetworkSum(d) == 0 <==> NativeSum(d) == 0
    decreases |d|
  {
    hide NetworkSum, NativeSum, Pair, Bswap16;
    if |d| > 1 {
      SumOrder(d[2..]);
      SumsUnfold(d);
      PairSwaps(d[0], d[1]);
      SwapTimes(Pair(d[0], d[1]));
      OrderStep(Pair(d[0], d[1]), Pair(d[1], d[0]), NativeSum(d[2..]), NetworkSum(d[2..]));
    } else {
      ShortSums(d);
    }
  }

  lemma SumsUnfold(d: seq<Byte>)
    requires |d| > 1
    ensures NativeSum(d) == Pair(d[0], d[1]) + NativeSum(d[2..])
    ensures NetworkSum(d) == Pair(d[1], d[0]) + NetworkSum(d[2..])
  {
    hide Pair;
  }

  lemma ShortSums(d: seq<Byte>)
    requires |d| <= 1
    ensures NetworkSum(d) == 256 * NativeSum(d)
  {
  }

  lemma PairSwaps(lo: Byte, hi: Byte)
    ensures Bswap16(Pair(lo, hi)) == Pair(hi, lo) && (Pair(hi, lo) == 0 <==> Pair(lo, hi) == 0)
  {
    assert Pair(lo, hi) / 256 == hi && Pair(lo, hi) % 256 == lo;
  }

  lemma OrderStep(w: nat, v: nat, b: nat, a: nat)
    requires v % M == 256 * w % M && a % M == 256 * b % M
    ensures (v + a) % M == 256 * (w + b) % M
  {
    ModAdd(v, a, 256 * b);
    ModAdd(256 * b, v, 256 * w);
  }

  lemma ModAdd(x: nat, a: nat, b: nat)
    requires a % M == b % M
    ensures (x + a) % M == (x + b) % M
  {
  }

  lemma ModTimes(x: nat, y: nat)
    requires x % M == y % M
    ensures 256 * x % M == 256 * y % M
  {
    ModPlus(256 * (x % M), 256 * (x / M));
    ModPlus(256 * (y % M), 256 * (y / M));
  }

  /** The native result, stored natively, is the checksum RFC 1071 defines on network words. */
  lemma OrderIndependent(d: seq<Byte>)
    requires |d| <= EXACT
    ensures Bswap16(Sum16(d)) == M - Fold(NetworkSum(d))
  {
    hide Fold, NativeSum, NetworkSum, Sum16, Bswap16;
    SumExact(d);
    SumOrder(d);
    var x := NativeSum(d);
    ModTimes(Fold(x), x);
    SwapFolded(Fold(x));
    SwapTimes(Fold(x));
    FoldedOnce(NetworkSum(d), NetworkSum(d), Bswap16(Fold(x)), Fold(NetworkSum(d)));
    SwapComplement(Fold(x));
  }

  lemma SwapFolded(x: Word)
    ensures Bswap16(x) == 0 <==> x == 0
  {
  }

  lemma SwapComplement(x: Word)
    ensures Bswap16(M - x) == M - Bswap16(x)
  {
    var hi, lo := x / 256, x % 256;
    assert (M - x) / 256 == 255 - hi && (M - x) % 256 == 255 - lo;
  }

  // ----- inserting and checking -----

  /** The word c stored natively at p. */
  function Stored(d: seq<Byte>, p: nat, c: Word): (r: seq<Byte>)
    requires p + 2 <= |d|
    ensures |r| == |d|
  {
    d[..p] + [c % 256, c / 256] + d[p + 2..]
  }

  lemma {:induction false} StoreSum(d: seq<Byte>, p: nat, c: Word)
    requires p % 2 == 0 && p + 2 <= |d|
    ensures NativeSum(Stored(d, p, c)) + Pair(d[p], d[p + 1]) == NativeSum(d) + c
    decreases p
  {
    var e := Stored(d, p, c);
    if p == 0 {
      assert e[2..] == d[2..];
    } else {
      assert e[2..] == Stored(d[2..], p - 2, c);
      StoreSum(d[2..], p - 2, c);
    }
  }

  lemma ZeroPair()
    ensures Pair(0, 0) == 0
  {
  }

  /** Any word that complements the sum modulo 65535 makes the whole check to zero. */
  lemma Cancels(x: nat, c: Word)
    requires c == M - Fold(x) || (c == M && Fold(x) == M)
    ensures Fold(x + c) == M
  {
    hide Fold;
    var f := Fold(x);
    ModAdd(c, x, f);
    FoldedOnce(x + c, x + c, M, Fold(x + c));
  }

  /** The checksum stored in its zeroed, aligned field: the receiver's checksum is zero. */
  lemma InsertedChecks(d: seq<Byte>, p: nat)
    requires p % 2 == 0 && p + 2 <= |d| <= EXACT && d[p] == 0 && d[p + 1] == 0
    ensures Sum16(Stored(d, p, Sum16(d))) == 0
  {
    hide Fold, NativeSum, Sum16, Pair, Stored;
    SumExact(d);
    SumExact(Stored(d, p, Sum16(d)));
    ZeroPair();
    StoreSum(d, p, Sum16(d));
    Cancels(NativeSum(d), Sum16(d));
  }

  /** Changing one aligned word is noticed, unless 0000 and FFFF are exchanged and the other
      words are not all zero. */
  lemma WordDamage(d: seq<Byte>, p: nat, c: Word)
    requires p % 2 == 0 && p + 2 <= |d| <= EXACT
    ensures var w: nat, e := Pair(d[p], d[p + 1]), Stored(d, p, c);
            Sum16(e) == Sum16(d) <==> c == w || (NativeSum(d) > w && (c == w + M || w == c + M))
  {
    hide Fold, NativeSum, Sum16, Pair, Stored;
    var w: nat, e := Pair(d[p], d[p + 1]), Stored(d, p, c);
    SumExact(d);
    SumExact(e);
    StoreSum(d, p, c);
    SumAtLeast(d, p);
    var rest := NativeSum(d) - w;
    SameFold(rest, w, c);
  }

  lemma {:induction false} SumAtLeast(d: seq<Byte>, p: nat)
    requires p % 2 == 0 && p + 2 <= |d|
    ensures NativeSum(d) >= Pair(d[p], d[p + 1])
    decreases p
  {
    if p > 0 {
      SumAtLeast(d[2..], p - 2);
    }
  }

  lemma SameFold(rest: nat, w: Word, c: Word)
    ensures Fold(rest + w) == Fold(rest + c) <==> c == w || (rest > 0 && (c == w + M || w == c + M))
  {
    hide Fold;
    FoldAgrees(rest + w, rest + c);
    ModAgrees(rest, w, c);
  }

  lemma FoldAgrees(x: nat, y: nat)
    ensures Fold(x) == Fold(y) <==> x % M == y % M && (x == 0 <==> y == 0)
  {
    hide Fold;
    if x % M == y % M && (x == 0 <==> y == 0) {
      FoldedOnce(x, y, Fold(x), Fold(y));
    }
  }

  lemma ModAgrees(rest: nat, w: Word, c: Word)
    ensures (rest + w) % M == (rest + c) % M <==> c == w || c == w + M || w == c + M
  {
    var q := rest / M;
    var r := rest % M;
    assert rest == r + q * M;
    ModPlus(r + w, q);
    ModPlus(r + c, q);
    SmallAgrees(r, w, c);
  }

  lemma SmallAgrees(r: nat, w: Word, c: Word)
    requires r < M
    ensures (r + w) % M == (r + c) % M <==> c == w || c == w + M || w == c + M
  {
  }

  // ----- the pseudo header -----

  function Native16(x: Word): seq<Byte> {
    [x % 256, x / 256]
  }

  /** The 12-byte pseudo header in network order. */
  function Pseudo(src: nat, dst: nat, protocol: Word, len: Word): (r: seq<Byte>)
    requires src < P32 && dst < P32
    ensures |r| == 12
  {
    [src / 0x100_0000, src / 0x1_0000 % 256, src / 256 % 256, src % 256,
     dst / 0x100_0000, dst / 0x1_0000 % 256, dst / 256 % 256, dst % 256,
     0, protocol % 256, len / 256, len % 256]
  }

  lemma SwappedStores(x: nat)
    requires x < P32
    ensures Bswap32(x) < P32
    ensures ToLe(Bswap32(x)) == [x / 0x100_0000, x / 0x1_0000 % 256, x / 256 % 256, x % 256]
  {
    hide ToLe;
    Bytes(x / 0x100_0000, x / 0x1_0000 % 256, x / 256 % 256, x % 256);
  }

  lemma Bytes(a: nat, b: nat, c: nat, d: nat)
    requires a < 256 && b < 256 && c < 256 && d < 256
    ensures var y: nat := d * 0x100_0000 + c * 0x1_0000 + b * 256 + a;
            y < P32 && ToLe(y) == [a, b, c, d]
  {
    var y3 := d;
    var y2 := y3 * 256 + c;
    var y1 := y2 * 256 + b;
    var y := y1 * 256 + a;
    Digit(y1, a);
    Digit(y2, b);
    Digit(y3, c);
    Quotients(y);
  }

  lemma Digit(q: nat, r: nat)
    requires r < 256
    ensures (q * 256 + r) / 256 == q && (q * 256 + r) % 256 == r
  {
  }

  lemma Quotients(y: nat)
    ensures y / 0x1_0000 == y / 256 / 256 && y / 0x100_0000 == y / 256 / 256 / 256
  {
  }

  /** ipv4_checksum: a zero result is sent as FFFF. */
  function Sum16Pseudo(src: nat, dst: nat, protocol: Word, data: seq<Byte>): Word
    requires src < P32 && dst < P32 && 12 + |data| < 0x1_0000
  {
    var c := Sum16(Pseudo(src, dst, protocol, |data|) + data);
    if c == 0 then M else c
  }

  /** The field stores of the header, one after the other. */
  lemma PseudoStores(src: nat, dst: nat, protocol: Word, len: Word)
    requires src < P32 && dst < P32 && Bswap32(src) < P32 && Bswap32(dst) < P32
    ensures ToLe(Bswap32(src)) + ToLe(Bswap32(dst)) + [0, protocol % 256] + Native16(Bswap16(len))
         == Pseudo(src, dst, protocol, len)
  {
    hide ToLe, Bswap32;
    SwappedStores(src);
    SwappedStores(dst);
    SwappedWord(len);
  }

  lemma SwappedWord(x: Word)
    ensures Native16(Bswap16(x)) == [x / 256, x % 256]
  {
    Digit(x % 256, x / 256);
  }

  method ComputePseudo(src: nat, dst: nat, protocol: Word, data: seq<Byte>) returns (r: Word)
    requires src < P32 && dst < P32 && 12 + |data| < 0x1_0000
    ensures r == Sum16Pseudo(src, dst, protocol, data)
  {
    hide Sum16, ToLe, Bswap32, Bswap16, Native16, Pseudo;
    SwappedStores(src);
    SwappedStores(dst);
    var pseudo := ToLe(Bswap32(src)) + ToLe(Bswap32(dst)) + [0, protocol % 256] + Native16(Bswap16(|data|));
    PseudoStores(src, dst, protocol, |data|);
    r := Compute(pseudo + data);
    if r == 0 {
      r := 0xFFFF;
    }
  }

  /** A datagram whose checksum field was zeroed and then filled is accepted by a receiver that
      sums pseudo header and datagram; the result is never zero. */
  lemma PseudoChecks(src: nat, dst: nat, protocol: Word, data: seq<Byte>, p: nat)
    requires src < P32 && dst < P32 && 12 + |data| < 0x1_0000
    requires p % 2 == 0 && p + 2 <= |data| && data[p] == 0 && data[p + 1] == 0
    ensures Sum16Pseudo(src, dst, protocol, data) != 0
    ensures var sent := Stored(data, p, Sum16Pseudo(src, dst, protocol, data));
            Sum16(Pseudo(src, dst, protocol, |data|) + sent) == 0
  {
    hide Fold, NativeSum, Sum16, Pseudo, Pair;
    var h, c := Pseudo(src, dst, protocol, |data|), Sum16Pseudo(src, dst, protocol, data);
    var whole := Stored(h + data, 12 + p, c);
    assert h + Stored(data, p, c) == whole;
    assert (h + data)[12 + p] == 0 && (h + data)[13 + p] == 0;
    ZeroPair();
    SumExact(h + data);
    SumExact(whole);
    StoreSum(h + data, 12 + p, c);
    Cancels(NativeSum(h + data), c);
  }
}
