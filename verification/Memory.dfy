/** The C copy routines of the kernel, on byte arrays. */
module Memory {
  import opened Machine

  /** `s` laid over `d` from position p on; nothing when it does not fit. */
  function Overwrite(d: seq<Byte>, p: nat, s: seq<Byte>): (r: seq<Byte>)
    ensures |r| == |d|
  {
    if p + |s| <= |d| then d[..p] + s + d[p + |s|..] else d
  }

  /** The n bytes from position p on; none when they are not all there. */
  function Slice(d: seq<Byte>, p: nat, n: nat): (r: seq<Byte>)
    ensures p + n <= |d| ==> |r| == n
  {
    if p + n <= |d| then d[p..p + n] else []
  }

  lemma OverwriteIs(d: seq<Byte>, p: nat, s: seq<Byte>, r: seq<Byte>)
    requires p + |s| <= |d| && |r| == |d|
    requires forall k :: 0 <= k < |d| ==> r[k] == if p <= k < p + |s| then s[k - p] else d[k]
    ensures r == Overwrite(d, p, s)
  {
  }

  lemma OverwriteNothing(d: seq<Byte>, p: nat)
    ensures Overwrite(d, p, []) == d
    ensures Slice(d, p, 0) == []
  {
  }

  lemma OverwriteAppend(d: seq<Byte>, p: nat, s: seq<Byte>, t: seq<Byte>)
    requires p + |s| + |t| <= |d|
    ensures Overwrite(Overwrite(d, p, s), p + |s|, t) == Overwrite(d, p, s + t)
  {
  }

  lemma SliceAppend(d: seq<Byte>, p: nat, n: nat, m: nat)
    requires p + n + m <= |d|
    ensures Slice(d, p, n) + Slice(d, p + n, m) == Slice(d, p, n + m)
  {
  }

  lemma SliceSlice(d: seq<Byte>, p: nat, n: nat, o: nat, m: nat)
    requires p + n <= |d| && o + m <= n
    ensures Slice(Slice(d, p, n), o, m) == Slice(d, p + o, m)
  {
    var l, r := Slice(Slice(d, p, n), o, m), Slice(d, p + o, m);
    assert |l| == |r|;
    assert forall i :: 0 <= i < m ==> l[i] == d[p..p + n][o + i] == d[p + o + i] == r[i];
  }

  lemma SliceAll(s: seq<Byte>)
    ensures Slice(s, 0, |s|) == s
  {
  }

  lemma OverwriteAll(d: seq<Byte>, s: seq<Byte>)
    requires |d| == |s|
    ensures Overwrite(d, 0, s) == s && Slice(s, 0, |s|) == s
  {
  }

  lemma OverwriteRead(d: seq<Byte>, p: nat, s: seq<Byte>)
    requires p + |s| <= |d|
    ensures Slice(Overwrite(d, p, s), p, |s|) == s
  {
  }

  lemma OverwriteOther(d: seq<Byte>, p: nat, s: seq<Byte>, a: nat, n: nat)
    requires p + |s| <= |d| && (a + n <= p || p + |s| <= a)
    ensures Slice(Overwrite(d, p, s), a, n) == Slice(d, a, n)
  {
    var l, r := Slice(Overwrite(d, p, s), a, n), Slice(d, a, n);
    assert forall i :: 0 <= i < |l| ==> l[i] == Overwrite(d, p, s)[a + i] == d[a + i] == r[i];
  }

  /** Rewriting part of a slice and putting it back is rewriting there, whether the slice
      was read first or covered whole. */
  lemma OverwriteSlice(d: seq<Byte>, base: nat, n: nat, part: seq<Byte>, o: nat, s: seq<Byte>)
    requires base + n <= |d| && |part| == n && o + |s| <= n
    requires part == Slice(d, base, n) || (o == 0 && |s| == n)
    ensures Overwrite(d, base, Overwrite(part, o, s)) == Overwrite(d, base + o, s)
  {
    var inner := Overwrite(part, o, s);
    assert inner == part[..o] + s + part[o + |s|..];
    if part == Slice(d, base, n) {
      assert part[..o] == d[base..base + o];
      assert part[o + |s|..] == d[base + o + |s|..base + n];
      OverwriteInner(d, base, n, o, s);
    } else {
      assert inner == s;
    }
  }

  lemma OverwriteInner(d: seq<Byte>, base: nat, n: nat, o: nat, s: seq<Byte>)
    requires base + n <= |d| && o + |s| <= n
    ensures Overwrite(d, base, d[base..base + o] + s + d[base + o + |s|..base + n]) == Overwrite(d, base + o, s)
  {
    assert d[..base] + d[base..base + o] == d[..base + o];
    assert d[base + o + |s|..base + n] + d[base + n..] == d[base + o + |s|..];
  }

  /** memmove is right for every overlap. Pointers into different arrays compare either way. */
  method Memmove(dst: array<Byte>, d: nat, src: array<Byte>, s: nat, n: nat)
    requires d + n <= dst.Length && s + n <= src.Length
    modifies dst
    ensures dst[..] == Overwrite(old(dst[..]), d, old(Slice(src[..], s, n)))
  {
    var below: bool := *;
    if dst == src {
      below := d < s;
    }
    if below {
      MoveUpward(dst, d, src, s, n);
    } else {
      MoveDownward(dst, d, src, s, n);
    }
  }

  /** memmove's first loop. */
  method MoveUpward(dst: array<Byte>, d: nat, src: array<Byte>, s: nat, n: nat)
    requires d + n <= dst.Length && s + n <= src.Length
    requires dst != src || d < s
    modifies dst
    ensures dst[..] == Overwrite(old(dst[..]), d, old(Slice(src[..], s, n)))
  {
    for i := 0 to n
      invariant forall k :: 0 <= k < dst.Length ==> dst[k] == if d <= k < d + i then old(src[s + k - d]) else old(dst[k])
    {
      dst[d + i] := src[s + i];
    }
    OverwriteIs(old(dst[..]), d, old(Slice(src[..], s, n)), dst[..]);
  }

  /** memmove's second loop. */
  method MoveDownward(dst: array<Byte>, d: nat, src: array<Byte>, s: nat, n: nat)
    requires d + n <= dst.Length && s + n <= src.Length
    requires dst != src || d >= s
    modifies dst
    ensures dst[..] == Overwrite(old(dst[..]), d, old(Slice(src[..], s, n)))
  {
    for i := n downto 0
      invariant forall k :: 0 <= k < dst.Length ==> dst[k] == if d + i <= k < d + n then old(src[s + k - d]) else old(dst[k])
    {
      dst[d + i] := src[s + i];
    }
    OverwriteIs(old(dst[..]), d, old(Slice(src[..], s, n)), dst[..]);
  }

  /** `next` is `now` with m bytes of `from`, read at q, stored at p. */
  predicate Wrote(now: seq<Byte>, next: seq<Byte>, from: seq<Byte>, p: nat, q: nat, m: nat) {
    && |next| == |now| && p + m <= |now| && q + m <= |from|
    && forall k :: 0 <= k < |now| ==> next[k] == if p <= k < p + m then from[q + k - p] else now[k]
  }

  /** A 64-bit load followed by a 64-bit store. */
  method MoveWord(dst: array<Byte>, d: nat, src: array<Byte>, s: nat)
    requires d + 8 <= dst.Length && s + 8 <= src.Length
    modifies dst
    ensures Wrote(old(dst[..]), dst[..], old(src[..]), d, s, 8)
  {
    var word := src[s..s + 8];
    for i := 0 to 8
      invariant forall k :: 0 <= k < dst.Length ==> dst[k] == if d <= k < d + i then word[k - d] else old(dst[k])
    {
      dst[d + i] := word[i];
    }
  }

  method MoveByte(dst: array<Byte>, d: nat, src: array<Byte>, s: nat)
    requires d < dst.Length && s < src.Length
    modifies dst
    ensures Wrote(old(dst[..]), dst[..], old(src[..]), d, s, 1)
  {
    dst[d] := src[s];
  }

  /** Copying upwards inside one array. */
  predicate Rising(dst: array<Byte>, d: nat, src: array<Byte>, s: nat, n: nat) {
    dst == src && s < d < s + n
  }

  /** The first byte that such a copy, `delta` bytes up, gets wrong. */
  function FirstWrong(delta: nat, n: nat): nat {
    if delta >= 8 || n <= 8 then delta else 8
  }

  /** A copy that does not rise, after i bytes. */
  predicate Copied(now: seq<Byte>, dst: seq<Byte>, src: seq<Byte>, d: nat, s: nat, i: nat) {
    Wrote(dst, now, src, d, s, i)
  }

  lemma CopiedStep(now: seq<Byte>, next: seq<Byte>, from: seq<Byte>, dst: seq<Byte>, src: seq<Byte>,
                   d: nat, s: nat, n: nat, i: nat, m: nat)
    requires Copied(now, dst, src, d, s, i) && Wrote(now, next, from, d + i, s + i, m) && i + m <= n
    requires from == src || (from == now && src == dst && (d <= s || s + n <= d))
    ensures Copied(next, dst, src, d, s, i + m)
  {
  }

  /** A rising copy of more than i bytes, `delta` bytes up, after i bytes: byte w comes to
      hold what byte w - delta held. */
  predicate Repeats(now: seq<Byte>, before: seq<Byte>, s: nat, delta: nat, w: nat, i: nat) {
    && |now| == |before| && delta <= w && s + delta + w < |now|
    && (i == 0 ==> now == before)
    && (0 < i <= w ==> now[s + w] == before[s + w - delta])
    && (w < i ==> now[s + delta + w] == before[s + w - delta])
  }

  /** Every step but the first is too short or too late to save byte w. */
  lemma RepeatsStep(now: seq<Byte>, next: seq<Byte>, before: seq<Byte>, s: nat, delta: nat, w: nat, i: nat, m: nat)
    requires Repeats(now, before, s, delta, w, i) && Wrote(now, next, now, s + delta + i, s + i, m)
    requires 0 < delta && 0 < m && (i == 0 ==> w - delta < m <= w) && (i > 0 ==> w - delta < i)
    ensures Repeats(next, before, s, delta, w, i + m)
  {
  }

  /** A copy after i of its n bytes. */
  predicate Copying(now: seq<Byte>, dst: seq<Byte>, src: seq<Byte>, d: nat, s: nat, n: nat, i: nat, rising: bool) {
    if rising then s < d < s + n && Repeats(now, dst, s, d - s, FirstWrong(d - s, n), i)
    else Copied(now, dst, src, d, s, i)
  }

  lemma CopyStarts(dst: seq<Byte>, src: seq<Byte>, d: nat, s: nat, n: nat, rising: bool)
    requires d + n <= |dst| && s + n <= |src| && (rising ==> s < d < s + n)
    ensures Copying(dst, dst, src, d, s, n, 0, rising)
  {
  }

  lemma CopyStep(now: seq<Byte>, next: seq<Byte>, from: seq<Byte>, dst: seq<Byte>, src: seq<Byte>,
                 d: nat, s: nat, n: nat, i: nat, m: nat, rising: bool)
    requires Copying(now, dst, src, d, s, n, i, rising) && Wrote(now, next, from, d + i, s + i, m) && i + m <= n
    requires rising ==> from == now
    requires !rising ==> from == src || (from == now && src == dst && (d <= s || s + n <= d))
    requires if i == 0 then m == (if n > 8 then 8 else 1) else m > 0 && (n > 8 ==> i >= 8)
    ensures Copying(next, dst, src, d, s, n, i + m, rising)
  {
    hide Copied, Repeats, Wrote;
    if rising {
      RepeatsStep(now, next, dst, s, d - s, FirstWrong(d - s, n), i, m);
    } else {
      CopiedStep(now, next, from, dst, src, d, s, n, i, m);
    }
  }

  lemma CopyEnds(now: seq<Byte>, dst: seq<Byte>, src: seq<Byte>, d: nat, s: nat, n: nat, rising: bool)
    requires Copying(now, dst, src, d, s, n, n, rising)
    ensures !rising ==> now == Overwrite(dst, d, Slice(src, s, n))
    ensures rising ==> s < d < s + n && WrongAt(now, dst, d, s, n)
  {
    if !rising {
      CopiedEnds(now, dst, src, d, s, n);
    }
  }

  lemma CopiedEnds(now: seq<Byte>, dst: seq<Byte>, src: seq<Byte>, d: nat, s: nat, n: nat)
    requires Copied(now, dst, src, d, s, n)
    ensures now == Overwrite(dst, d, Slice(src, s, n))
  {
    OverwriteIs(dst, d, Slice(src, s, n), now);
  }

  /** After the copy the byte w of the destination holds what byte w - (d - s) of the source held. */
  predicate WrongAt(now: seq<Byte>, before: seq<Byte>, d: nat, s: nat, n: nat)
    requires s < d < s + n
  {
    var w := FirstWrong(d - s, n);
    d - s <= w < n && d + w < |now| == |before| && now[d + w] == before[s + w - (d - s)]
  }

  /** memcpy, eight bytes at a time with a byte tail, is right for ranges that do not overlap
      and for every overlap with the destination below the source. For every other overlap it
      repeats an earlier byte, so it is right for all contents exactly when it does not rise. */
  method Memcpy(dst: array<Byte>, d: nat, src: array<Byte>, s: nat, n: nat)
    requires d + n <= dst.Length && s + n <= src.Length
    modifies dst
    ensures !Rising(dst, d, src, s, n) ==> dst[..] == Overwrite(old(dst[..]), d, old(Slice(src[..], s, n)))
    ensures Rising(dst, d, src, s, n) ==> WrongAt(dst[..], old(dst[..]), d, s, n)
  {
    hide Copying, Wrote, Overwrite, Slice, WrongAt;
    ghost var dst0, src0 := dst[..], src[..];
    ghost var rising := Rising(dst, d, src, s, n);
    CopyStarts(dst0, src0, d, s, n, rising);
    var i := 0;
    while i + 8 < n
      invariant i <= n && (i == 0 || i >= 8) && (dst != src ==> src[..] == src0)
      invariant Copying(dst[..], dst0, src0, d, s, n, i, rising)
    {
      ghost var now, from := dst[..], src[..];
      MoveWord(dst, d + i, src, s + i);
      CopyStep(now, dst[..], from, dst0, src0, d, s, n, i, 8, rising);
      i := i + 8;
    }
    while i < n
      invariant i <= n && (if i == 0 then n <= 8 else n > 8 ==> i >= 8) && (dst != src ==> src[..] == src0)
      invariant Copying(dst[..], dst0, src0, d, s, n, i, rising)
    {
      ghost var now, from := dst[..], src[..];
      MoveByte(dst, d + i, src, s + i);
      CopyStep(now, dst[..], from, dst0, src0, d, s, n, i, 1, rising);
      i := i + 1;
    }
    CopyEnds(dst[..], dst0, src0, d, s, n, rising);
  }

  // ----- memset32 -----

  /** The four bytes of a 32-bit value in memory, low byte first. */
  function ToLe(v: nat): (b: seq<Byte>)
    requires v < P32
    ensures |b| == 4
  {
    [v % 256, v / 256 % 256, v / 0x1_0000 % 256, v / 0x100_0000]
  }

  /** The i-th byte is the value shifted down by i bytes. */
  lemma LowByteFirst(v: nat, i: nat)
    requires v < P32 && i < 4
    ensures ToLe(v)[i] == v / Shift(i) % 0x100
  {
    if i == 0 {
    } else if i == 1 {
    } else if i == 2 {
    } else {
      assert v / 0x100_0000 < 0x100;
    }
  }

  /** 2^(8 i) */
  function Shift(i: nat): (n: nat)
    ensures n > 0
  {
    if i == 0 then 1 else Shift(i - 1) * 0x100
  }

  /** The eight bytes of a 64-bit value in memory. */
  function ToLe64(x: nat): (r: seq<Byte>)
    requires x < P32 * P32
    ensures |r| == 8
  {
    ToLe(x % P32) + ToLe(x / P32)
  }

  function Repeat32(value: nat, count: nat): (r: seq<Byte>)
    requires value < P32
    ensures |r| == 4 * count
  {
    if count == 0 then [] else Repeat32(value, count - 1) + ToLe(value)
  }

  /** One store of a few bytes. */
  method Store(dst: array<Byte>, p: nat, bytes: seq<Byte>)
    requires p + |bytes| <= dst.Length
    modifies dst
    ensures dst[..] == Overwrite(old(dst[..]), p, bytes)
  {
    for i := 0 to |bytes|
      invariant forall k :: 0 <= k < dst.Length ==> dst[k] == if p <= k < p + i then bytes[k - p] else old(dst[k])
    {
      dst[p + i] := bytes[i];
    }
    OverwriteIs(old(dst[..]), p, bytes, dst[..]);
  }

  /** The first i values are filled in. */
  predicate Filled(now: seq<Byte>, was: seq<Byte>, d: nat, value: nat, i: nat)
    requires value < P32 && d + 4 * i <= |was|
  {
    now == Overwrite(was, d, Repeat32(value, i))
  }

  lemma FillOne(now: seq<Byte>, was: seq<Byte>, d: nat, value: nat, i: nat)
    requires value < P32 && d + 4 * (i + 1) <= |was| && Filled(now, was, d, value, i) && |now| == |was|
    ensures Filled(Overwrite(now, d + 4 * i, ToLe(value)), was, d, value, i + 1)
  {
    hide ToLe, Overwrite;
    OverwriteAppend(was, d, Repeat32(value, i), ToLe(value));
  }

  lemma FillPair(now: seq<Byte>, was: seq<Byte>, d: nat, value: nat, i: nat)
    requires value < P32 && d + 4 * (i + 2) <= |was| && Filled(now, was, d, value, i) && |now| == |was|
    ensures value * P32 + value < P32 * P32
    ensures Filled(Overwrite(now, d + 4 * i, ToLe64(value * P32 + value)), was, d, value, i + 2)
  {
    hide ToLe, ToLe64, Overwrite;
    PairOfValues(value);
    OverwriteAppend(was, d, Repeat32(value, i), ToLe64(value * P32 + value));
    assert Repeat32(value, i + 2) == Repeat32(value, i) + (ToLe(value) + ToLe(value));
  }

  /** memset32: pairs of values as 64-bit stores and a last one are the plain fill. */
  method Memset32(dst: array<Byte>, d: nat, value: nat, count: nat)
    requires value < P32 && d + 4 * count <= dst.Length
    modifies dst
    ensures dst[..] == Overwrite(old(dst[..]), d, Repeat32(value, count))
  {
    hide ToLe, ToLe64, Overwrite, Repeat32;
    FilledNone(dst[..], d, value);
    PairOfValues(value);
    var v: nat := value * P32 + value;
    var i := 0;
    while i + 2 <= count
      invariant 0 <= i <= count && Filled(dst[..], old(dst[..]), d, value, i)
    {
      FillPair(dst[..], old(dst[..]), d, value, i);
      Store(dst, d + 4 * i, ToLe64(v));
      i := i + 2;
    }
    while i < count
      invariant 0 <= i <= count && Filled(dst[..], old(dst[..]), d, value, i)
    {
      FillOne(dst[..], old(dst[..]), d, value, i);
      Store(dst, d + 4 * i, ToLe(value));
      i := i + 1;
    }
  }

  lemma FilledNone(now: seq<Byte>, d: nat, value: nat)
    requires value < P32 && d <= |now|
    ensures Filled(now, now, d, value, 0)
  {
    hide Overwrite;
    OverwriteNothing(now, d);
  }

  lemma PairOfValues(value: nat)
    requires value < P32
    ensures value * P32 + value < P32 * P32
    ensures ToLe64(value * P32 + value) == ToLe(value) + ToLe(value)
  {
    hide ToLe;
  }
}
