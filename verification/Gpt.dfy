/** Validation of a GPT header and its entry array, and the damage it rejects. */
module Gpt {
  import opened Crc32

  /** sizeof(gpt_header) */
  const HEADER_SIZE: nat := 92

  const SIGNATURE: seq<Byte> := [0x45, 0x46, 0x49, 0x20, 0x50, 0x41, 0x52, 0x54]
  const LBA_ONE: seq<Byte> := [1, 0, 0, 0, 0, 0, 0, 0]
  const NO_CHECKSUM: seq<Byte> := [0, 0, 0, 0]

  /** header_size: how many bytes the header checksum covers. */
  function CoveredSize(h: seq<Byte>): nat
    requires |h| == HEADER_SIZE
  {
    Le(h[12..16]) as nat
  }

  /** The copy with header_checksum cleared. */
  function Cleared(h: seq<Byte>): (c: seq<Byte>)
    requires |h| == HEADER_SIZE
    ensures |c| == HEADER_SIZE
  {
    h[..16] + NO_CHECKSUM + h[20..]
  }

  /** The checksummed bytes: the copy and, for a header_size above 92, what lies behind it. */
  function Covered(h: seq<Byte>, behind: seq<Byte>): (c: seq<Byte>)
    requires |h| == HEADER_SIZE && CoveredSize(h) <= HEADER_SIZE + |behind|
    ensures |c| == CoveredSize(h)
  {
    (Cleared(h) + behind)[..CoveredSize(h)]
  }

  /** `behind` reaches as far as header_size does, if that is looked at. */
  predicate Readable(h: seq<Byte>, behind: seq<Byte>)
    requires |h| == HEADER_SIZE
  {
    h[..8] == SIGNATURE ==> CoveredSize(h) <= HEADER_SIZE + |behind|
  }

  predicate Accepted(h: seq<Byte>, behind: seq<Byte>)
    requires |h| == HEADER_SIZE && Readable(h, behind)
  {
    && h[..8] == SIGNATURE
    && Checksum(Covered(h, behind)) == Le(h[16..20])
    && h[24..32] == LBA_ONE
  }

  /** The covered bytes lie inside the structure, and its checks succeed. */
  predicate ValidHeader(h: seq<Byte>)
    requires |h| == HEADER_SIZE
  {
    && CoveredSize(h) <= HEADER_SIZE
    && h[..8] == SIGNATURE
    && Checksum(Cleared(h)[..CoveredSize(h)]) == Le(h[16..20])
    && h[24..32] == LBA_ONE
  }

  /** What is accepted: the first eight bytes spell EFI PART, the checksum of header_size bytes with
      its own field zeroed is the one stored, and the header's own block number is 1. */
  lemma AcceptedMeans(h: seq<Byte>, behind: seq<Byte>)
    requires |h| == 92 && Readable(h, behind)
    ensures Accepted(h, behind) <==>
              && (forall i :: 0 <= i < 8 ==> h[i] as int == "EFI PART"[i] as int)
              && Checksum((h[..16] + [0, 0, 0, 0] + h[20..] + behind)[..Le(h[12..16]) as nat]) == Le(h[16..20])
              && Le(h[24..28]) == 1 && Le(h[28..32]) == 0
    ensures Offset(2) == 12 && Offset(3) == 16 && Offset(4) == 20 && Offset(5) == 24 && Offset(6) == 32 && Offset(14) == 92
  {
    hide Checksum, Le;
    FieldOffsets();
    SignatureText(h);
    BlockOne(h);
  }

  lemma SignatureText(h: seq<Byte>)
    requires |h| == HEADER_SIZE
    ensures h[..8] == SIGNATURE <==> forall i :: 0 <= i < 8 ==> h[i] as int == "EFI PART"[i] as int
  {
    assert forall i :: 0 <= i < 8 ==> h[i] == h[..8][i] && SIGNATURE[i] as int == "EFI PART"[i] as int;
    assert h[..8] == SIGNATURE <==> forall i :: 0 <= i < 8 ==> h[i] == SIGNATURE[i];
  }

  /** The 64-bit number in the bytes 24 to 31, low byte first. */
  lemma BlockOne(h: seq<Byte>)
    requires |h| == HEADER_SIZE
    ensures h[24..32] == LBA_ONE <==> Le(h[24..28]) == 1 && Le(h[28..32]) == 0
  {
    hide Le;
    OneBytes(h[24..28]);
    ZeroBytes(h[28..32]);
    var w := h[24..32];
    assert w == h[24..28] + h[28..32] && w[..4] == h[24..28] && w[4..] == h[28..32];
    assert LBA_ONE == [1, 0, 0, 0] + [0, 0, 0, 0] && LBA_ONE[..4] == [1, 0, 0, 0] && LBA_ONE[4..] == [0, 0, 0, 0];
  }

  lemma OneBytes(w: seq<Byte>)
    requires |w| == 4
    ensures Le(w) == 1 <==> w == [1, 0, 0, 0]
  {
    hide Plus, Extend, Shift8, Le;
    LeSame(w, [1, 0, 0, 0]);
    OneIs();
  }

  lemma OneIs()
    ensures Le([1, 0, 0, 0]) == 1
  {
    hide Le;
    LeFour([1, 0, 0, 0]);
    OneWord();
  }

  lemma OneWord()
    ensures Plus(Extend(1), Shift8(Plus(Extend(0), Shift8(Plus(Extend(0), Shift8(Plus(Extend(0), Shift8(ZERO)))))))) == 1
  {
  }

  lemma ZeroBytes(w: seq<Byte>)
    requires |w| == 4
    ensures Le(w) == 0 <==> w == [0, 0, 0, 0]
  {
    hide Plus, Extend, Shift8, Le;
    if Le(w) == ZERO {
      LeZero(w);
      assert w == Zeros(4) == [0, 0, 0, 0];
    } else {
      ZeroIs();
    }
  }

  lemma ZeroIs()
    ensures Le([0, 0, 0, 0]) == 0
  {
    hide Le;
    LeFour([0, 0, 0, 0]);
    ZeroWord();
  }

  lemma ZeroWord()
    ensures Plus(Extend(0), Shift8(Plus(Extend(0), Shift8(Plus(Extend(0), Shift8(Plus(Extend(0), Shift8(ZERO)))))))) == 0
  {
  }

  /** Four bytes are determined by their word. */
  lemma LeSame(v: seq<Byte>, w: seq<Byte>)
    requires |v| == 4 && |w| == 4
    ensures Le(v) == Le(w) <==> v == w
  {
    hide Plus, Extend, Shift8, Le;
    WindowWord(ZERO, v);
    WindowWord(ZERO, w);
    assert v[..0] == w[..0] && v[4..] == w[4..];
    BurstDetected(v, w, 0, 4);
    WindowsSame(v, w);
  }

  lemma WindowsSame(v: seq<Byte>, w: seq<Byte>)
    requires |v| == 4 && |w| == 4 && (Checksum(v) == Checksum(w) <==> v == w)
    ensures Le(v) == Le(w) ==> v == w
  {
    hide BitSteps, Le, Plus, Complement;
    WindowWord(ONES, v);
    WindowWord(ONES, w);
  }

  /** What lies behind the copy plays no part while header_size stays inside it. */
  lemma AcceptedInside(h: seq<Byte>, behind: seq<Byte>)
    requires |h| == HEADER_SIZE && CoveredSize(h) <= HEADER_SIZE
    ensures Accepted(h, behind) == ValidHeader(h)
  {
    hide Le, Checksum;
    assert (Cleared(h) + behind)[..CoveredSize(h)] == Cleared(h)[..CoveredSize(h)];
  }

  /** validate_gpt. `behind` is the memory behind the copy on the stack, which the code reads
      when header_size is above 92. */
  method ValidateGpt(header: array<Byte>, behind: seq<Byte>) returns (ok: bool)
    requires header.Length >= HEADER_SIZE && Readable(header[..HEADER_SIZE], behind)
    ensures ok == Accepted(header[..HEADER_SIZE], behind)
  {
    hide Le, Checksum;
    ghost var h := header[..HEADER_SIZE];
    assert header[..8] == h[..8];
    if header[..8] != SIGNATURE {
      return false;
    }
    var copy := new Byte[HEADER_SIZE + |behind|](
      i requires 0 <= i < HEADER_SIZE + |behind| reads header =>
        if i < HEADER_SIZE then header[i] else behind[i - HEADER_SIZE]);
    assert copy[..] == h + behind;
    copy[16], copy[17], copy[18], copy[19] := 0, 0, 0, 0;
    assert copy[..] == Cleared(h) + behind;
    assert header[12..16] == h[12..16] && header[16..20] == h[16..20] && header[24..32] == h[24..32];
    var computed := ComputeCrc32(copy, Le(header[12..16]) as nat);
    assert copy[..CoveredSize(h)] == Covered(h, behind);
    if computed != Le(header[16..20]) {
      return false;
    }
    return header[24..32] == LBA_ONE;
  }

  /** Damage of at most four consecutive covered bytes, away from the checksum field, never
      passes as long as header_size says the same (WindowProtected says when it does). */
  lemma HeaderDamageRejected(h: seq<Byte>, d: seq<Byte>, i: nat, w: nat)
    requires |h| == HEADER_SIZE && |d| == HEADER_SIZE && ValidHeader(h)
    requires w <= 4 && i + w <= CoveredSize(h) && SameOutside(h, d, i, w) && h != d
    requires i + w <= 16 || 20 <= i
    requires CoveredSize(d) == CoveredSize(h)
    ensures !ValidHeader(d)
  {
    hide Le, Checksum, SameOutside, Cleared;
    FieldSame(h, d, i, w, 16);
    var n := CoveredSize(h);
    var a, b := Cleared(h)[..n], Cleared(d)[..n];
    ClearedSame(h, d, i, w);
    PrefixSame(Cleared(h), Cleared(d), i, w, n);
    BurstDetected(a, b, i, w);
    if a == b {
      ClearedTail(h, d, i, w, n);
    }
  }

  lemma PrefixSame(h: seq<Byte>, d: seq<Byte>, i: nat, w: nat, n: nat)
    requires |h| == |d| && i + w <= n <= |h| && SameOutside(h, d, i, w)
    ensures SameOutside(h[..n], d[..n], i, w)
  {
    assert h[..n][..i] == h[..i] && d[..n][..i] == d[..i];
    assert h[..n][i + w..] == h[i + w..][..n - i - w] && d[..n][i + w..] == d[i + w..][..n - i - w];
  }

  lemma FieldSame(h: seq<Byte>, d: seq<Byte>, i: nat, w: nat, o: nat)
    requires |h| == HEADER_SIZE && |d| == HEADER_SIZE && i + w <= HEADER_SIZE && SameOutside(h, d, i, w)
    requires o + 4 <= HEADER_SIZE && (i + w <= o || o + 4 <= i)
    ensures h[o..o + 4] == d[o..o + 4]
  {
    forall k | o <= k < o + 4
      ensures h[k] == d[k]
    {
      PointSame(h, d, i, w, k);
    }
  }

  lemma ClearedSame(h: seq<Byte>, d: seq<Byte>, i: nat, w: nat)
    requires |h| == HEADER_SIZE && |d| == HEADER_SIZE && i + w <= HEADER_SIZE && SameOutside(h, d, i, w)
    requires i + w <= 16 || 20 <= i
    ensures SameOutside(Cleared(h), Cleared(d), i, w)
  {
    var a, b := Cleared(h), Cleared(d);
    forall k | 0 <= k < HEADER_SIZE && (k < i || i + w <= k)
      ensures a[k] == b[k]
    {
      PointSame(h, d, i, w, k);
    }
  }

  lemma PointSame(h: seq<Byte>, d: seq<Byte>, i: nat, w: nat, k: nat)
    requires |h| == |d| && i + w <= |h| && SameOutside(h, d, i, w) && k < |h| && (k < i || i + w <= k)
    ensures h[k] == d[k]
  {
    if k < i {
      assert h[..i][k] == d[..i][k];
    } else {
      assert h[i + w..][k - i - w] == d[i + w..][k - i - w];
    }
  }

  /** Equal cleared copies of headers that agree on the checksum field are equal headers. */
  lemma ClearedTail(h: seq<Byte>, d: seq<Byte>, i: nat, w: nat, n: nat)
    requires |h| == HEADER_SIZE && |d| == HEADER_SIZE && i + w <= n <= HEADER_SIZE && SameOutside(h, d, i, w)
    requires i + w <= 16 || 20 <= i
    requires Cleared(h)[..n] == Cleared(d)[..n]
    ensures h == d
  {
    forall k | 0 <= k < HEADER_SIZE
      ensures h[k] == d[k]
    {
      if k < i || i + w <= k {
        PointSame(h, d, i, w, k);
      } else {
        assert Cleared(h)[..n][k] == h[k] && Cleared(d)[..n][k] == d[k];
      }
    }
  }

  /** A change of the checksum field alone never passes either. */
  lemma ChecksumDamageRejected(h: seq<Byte>, d: seq<Byte>)
    requires |h| == HEADER_SIZE && |d| == HEADER_SIZE && ValidHeader(h)
    requires SameOutside(h, d, 16, 4) && h != d
    ensures !ValidHeader(d)
  {
    hide Le, Checksum;
    FieldSame(h, d, 16, 4, 12);
    assert Cleared(h) == Cleared(d);
    assert h == h[..16] + h[16..20] + h[20..] && d == d[..16] + d[16..20] + d[20..];
    LeInjective(h[16..20], d[16..20]);
  }

  lemma LeInjective(a: seq<Byte>, b: seq<Byte>)
    requires |a| == |b| == 4
    ensures Le(a) == Le(b) <==> a == b
  {
    hide Le, Plus;
    LeLinear(a, b);
    PlusZero(Le(a), Le(b));
    if Le(a) == Le(b) {
      LeZero(Xor(a, b));
      forall k | 0 <= k < 4
        ensures a[k] == b[k]
      {
        ByteXorZero(a[k], b[k]);
      }
    }
  }

  lemma {:induction false} LeLinear(a: seq<Byte>, b: seq<Byte>)
    requires |a| == |b|
    ensures Le(Xor(a, b)) == Plus(Le(a), Le(b))
  {
    hide Plus, Extend, Shift8, ByteXor;
    if a == [] {
      PlusZero(ZERO, ZERO);
    } else {
      LeLinear(a[1..], b[1..]);
      assert Xor(a, b)[1..] == Xor(a[1..], b[1..]);
      ExtendLinear(a[0], b[0]);
      Shift8Linear(Le(a[1..]), Le(b[1..]));
      Rearrange(Extend(a[0]), Extend(b[0]), Shift8(Le(a[1..])), Shift8(Le(b[1..])));
    }
  }

  lemma Shift8Linear(a: Word, b: Word)
    ensures Shift8(Plus(a, b)) == Plus(Shift8(a), Shift8(b))
  {
  }

  // ----- what the header checksum protects -----

  /** All but the last four bytes of a header that covers 92 bytes and stores checksum zero. */
  function Prefix(): (h: seq<Byte>)
    ensures |h| == HEADER_SIZE - 4
  {
    SIGNATURE + [0, 0, 1, 0] + [92, 0, 0, 0] + NO_CHECKSUM + [0, 0, 0, 0] + LBA_ONE + seq(56, _ => 0)
  }

  function FullHeader(): (h: seq<Byte>)
    ensures |h| == HEADER_SIZE
  {
    Prefix() + Steer(Process(ONES, Prefix()), ONES)
  }

  lemma FullFields()
    ensures var h := FullHeader();
            && h[..8] == SIGNATURE && h[12..16] == [92, 0, 0, 0] && h[16..20] == NO_CHECKSUM && h[24..32] == LBA_ONE
            && Cleared(h) == h
  {
    hide Steer, Process;
    assert FullHeader()[..88] == Prefix();
    PrefixFields();
  }

  lemma PrefixFields()
    ensures var h := Prefix();
            h[..8] == SIGNATURE && h[12..16] == [92, 0, 0, 0] && h[16..20] == NO_CHECKSUM && h[24..32] == LBA_ONE
  {
  }

  /** Bytes that end in a steered word have the checksum zero. */
  lemma SteeredZero(m: seq<Byte>)
    ensures Checksum(m + Steer(Process(ONES, m), ONES)) == 0
  {
    hide Process, Steer, Complement;
    ProcessAppend(ONES, m, Steer(Process(ONES, m), ONES));
    SteerIs(Process(ONES, m), ONES);
    OnesComplement();
  }

  lemma OnesComplement()
    ensures Complement(ONES) == 0
  {
  }

  lemma LeOf(a: Byte, b: Byte, c: Byte, d: Byte)
    ensures Le([a, b, c, d])
         == Plus(Extend(a), Shift8(Plus(Extend(b), Shift8(Plus(Extend(c), Shift8(Plus(Extend(d), Shift8(ZERO))))))))
  {
    hide Plus, Extend, Shift8;
    LeFour([a, b, c, d]);
  }

  lemma Sizes()
    ensures Le(NO_CHECKSUM) == 0 && Le([92, 0, 0, 0]) as nat == 92
    ensures Le([92, 1, 0, 0]) as nat == 348 && Le([92, 0, 1, 0]) as nat == 65628 && Le([92, 0, 0, 1]) as nat == 16777308
  {
    LeOf(0, 0, 0, 0);
    LeOf(92, 0, 0, 0);
    LeOf(92, 1, 0, 0);
    LeOf(92, 0, 1, 0);
    LeOf(92, 0, 0, 1);
  }

  lemma FullValid()
    ensures ValidHeader(FullHeader()) && CoveredSize(FullHeader()) == HEADER_SIZE
  {
    hide Le, Checksum, Steer, Process;
    FullFields();
    Sizes();
    SteeredZero(Prefix());
    assert FullHeader()[..HEADER_SIZE] == FullHeader();
  }

  lemma NoBytes()
    ensures Checksum([]) == 0
  {
  }

  /** With a stored checksum of zero the size field is not protected at all: any valid header
      of 92 bytes passes with header_size zeroed, and there is such a header. */
  lemma SizeDamagePasses(h: seq<Byte>)
    requires |h| == HEADER_SIZE && ValidHeader(h) && h[12..16] == [92, 0, 0, 0] && h[16..20] == NO_CHECKSUM
    ensures ValidHeader(h[12 := 0]) && CoveredSize(h[12 := 0]) == 0
  {
    hide Le, Checksum;
    var d := h[12 := 0];
    assert d[..8] == h[..8] && d[16..20] == h[16..20] && d[24..32] == h[24..32];
    assert h[12..16][1] == h[13] && h[12..16][2] == h[14] && h[12..16][3] == h[15];
    assert d[12..16] == [0, 0, 0, 0];
    Sizes();
    NoBytes();
    assert Cleared(d)[..0] == [];
  }

  /** d is h damaged in a window, h is valid and covers all 92 bytes, and d is accepted. */
  ghost predicate Escapes(h: seq<Byte>, d: seq<Byte>, behind: seq<Byte>, i: nat, w: nat)
    requires i + w <= HEADER_SIZE
  {
    && |h| == HEADER_SIZE && |d| == HEADER_SIZE && ValidHeader(h) && CoveredSize(h) == HEADER_SIZE
    && SameOutside(h, d, i, w) && h != d && Readable(d, behind) && Accepted(d, behind)
  }

  /** Of the windows of up to four bytes away from the checksum field, exactly those that meet
      header_size can be damaged unnoticed. */
  lemma WindowProtected(i: nat, w: nat)
    requires 0 < w <= 4 && i + w <= HEADER_SIZE && (i + w <= 16 || 20 <= i)
    ensures (exists h, d, behind :: Escapes(h, d, behind, i, w)) <==> i < 16 && 12 < i + w
  {
    if i < 16 && 12 < i + w {
      WindowEscapes(i, w);
    } else {
      forall h, d, behind
        ensures !Escapes(h, d, behind, i, w)
      {
        NoEscape(h, d, behind, i, w);
      }
    }
  }

  lemma NoEscape(h: seq<Byte>, d: seq<Byte>, behind: seq<Byte>, i: nat, w: nat)
    requires w <= 4 && i + w <= HEADER_SIZE && (i + w <= 12 || 20 <= i)
    ensures !Escapes(h, d, behind, i, w)
  {
    hide Le, Checksum, SameOutside;
    if |h| == HEADER_SIZE && |d| == HEADER_SIZE && ValidHeader(h) && CoveredSize(h) == HEADER_SIZE
       && SameOutside(h, d, i, w) && h != d {
      FieldSame(h, d, i, w, 12);
      HeaderDamageRejected(h, d, i, w);
      AcceptedInside(d, behind);
    }
  }

  lemma WindowEscapes(i: nat, w: nat)
    requires 0 < w <= 4 && i + w <= 16 && 12 < i + w
    ensures exists h, d, behind :: Escapes(h, d, behind, i, w)
  {
    hide Le, Checksum, FullHeader, CoveredSize, ValidHeader, Accepted, Readable;
    var h := FullHeader();
    FullFields();
    FullValid();
    var k := if i < 12 then 12 else i;
    if k == 12 {
      var d := h[12 := 0];
      SizeDamagePasses(h);
      AcceptedInside(d, []);
      InsideReadable(d);
      OneByteDamage(h, k, 0, i, w);
      assert Escapes(h, d, [], i, w);
    } else {
      var d := h[k := 1];
      var behind := Extended(h, k);
      assert h[12..16][k - 12] == h[k];
      OneByteDamage(h, k, 1, i, w);
      assert Escapes(h, d, behind, i, w);
    }
  }

  lemma InsideReadable(d: seq<Byte>)
    requires |d| == HEADER_SIZE && CoveredSize(d) <= HEADER_SIZE
    ensures Readable(d, [])
  {
  }

  lemma OneByteDamage(h: seq<Byte>, k: nat, b: Byte, i: nat, w: nat)
    requires |h| == HEADER_SIZE && i <= k < i + w <= HEADER_SIZE && h[12..16] == [92, 0, 0, 0] && 12 <= k < 16
    requires b == if k == 12 then 0 else 1
    ensures SameOutside(h, h[k := b], i, w) && h[k := b] != h
  {
    assert h[12..16][k - 12] == h[k];
    assert h[k := b][k] == b;
  }

  /** With header_size above 92 there is memory behind the copy that makes the code accept. */
  lemma Extended(h: seq<Byte>, k: nat) returns (behind: seq<Byte>)
    requires |h| == HEADER_SIZE && ValidHeader(h) && h[12..16] == [92, 0, 0, 0] && h[16..20] == NO_CHECKSUM && 12 < k < 16
    ensures Readable(h[k := 1], behind) && Accepted(h[k := 1], behind)
  {
    hide Le, Checksum, Steer, Process, ValidHeader;
    var d := h[k := 1];
    LargeSize(h, k);
    ValidFields(h);
    assert d[..8] == h[..8] && d[16..20] == h[16..20] && d[24..32] == h[24..32];
    var n := CoveredSize(d);
    var fill: seq<Byte> := seq(n - HEADER_SIZE - 4, _ => 0);
    var m := Cleared(d) + fill;
    var tail := Steer(Process(ONES, m), ONES);
    behind := fill + tail;
    assert Cleared(d) + behind == m + tail;
    assert (Cleared(d) + behind)[..n] == m + tail;
    SteeredZero(m);
    Sizes();
  }

  lemma ValidFields(h: seq<Byte>)
    requires |h| == HEADER_SIZE && ValidHeader(h)
    ensures h[..8] == SIGNATURE && h[24..32] == LBA_ONE
  {
    hide Checksum, Le;
  }

  lemma LargeSize(h: seq<Byte>, k: nat)
    requires |h| == HEADER_SIZE && h[12..16] == [92, 0, 0, 0] && 12 < k < 16
    ensures CoveredSize(h[k := 1]) >= HEADER_SIZE + 4
  {
    hide Le;
    var d := h[k := 1];
    assert forall j :: 12 <= j < 16 ==> h[12..16][j - 12] == h[j] && d[12..16][j - 12] == d[j];
    assert d[12..16] == [92, if k == 13 then 1 else 0, if k == 14 then 1 else 0, if k == 15 then 1 else 0];
    Sizes();
  }

  // ----- the entry array -----

  /** `partition_entry_size * partition_entry_count` in 32 bits. */
  function ArraySize(h: seq<Byte>): nat
    requires |h| == HEADER_SIZE
  {
    Le(h[84..88]) as nat * Le(h[80..84]) as nat % 0x1_0000_0000
  }

  predicate ValidEntries(h: seq<Byte>, entries: seq<Byte>)
    requires |h| == HEADER_SIZE
  {
    |entries| == ArraySize(h) && Checksum(entries) == Le(h[88..92])
  }

  /** validate_gpt_partition_entries */
  method ValidateEntries(header: array<Byte>, entries: array<Byte>) returns (ok: bool)
    requires header.Length >= HEADER_SIZE && ArraySize(header[..HEADER_SIZE]) <= entries.Length
    ensures ok == ValidEntries(header[..HEADER_SIZE], entries[..ArraySize(header[..HEADER_SIZE])])
  {
    hide Le, Checksum;
    ghost var h := header[..HEADER_SIZE];
    assert header[84..88] == h[84..88] && header[80..84] == h[80..84] && header[88..92] == h[88..92];
    var size := Le(header[84..88]) as nat * Le(header[80..84]) as nat % 0x1_0000_0000;
    var computed := ComputeCrc32(entries, size);
    return computed == Le(header[88..92]);
  }

  /** The sizes of the fields of gpt_header, in order. */
  const FIELDS: seq<nat> := [8, 4, 4, 4, 4, 8, 8, 8, 8, 16, 8, 4, 4, 4]

  /** Where field k begins. */
  function Offset(k: nat): nat
    requires k <= |FIELDS|
  {
    if k == 0 then 0 else Offset(k - 1) + FIELDS[k - 1]
  }

  /** The header is all its fields, one behind the other; these are the ones that are looked at:
      signature, header_size, header_checksum, lba_header, and count, size and checksum of the
      entries. */
  lemma FieldOffsets()
    ensures Offset(14) == HEADER_SIZE
    ensures Offset(0) == 0 && Offset(1) == 8 && Offset(2) == 12 && Offset(3) == 16 && Offset(4) == 20
    ensures Offset(5) == 24 && Offset(6) == 32 && Offset(11) == 80 && Offset(12) == 84 && Offset(13) == 88
  {
    assert Offset(4) == 20;
    assert Offset(8) == 48;
    assert Offset(11) == 80;
  }

  function Field(h: seq<Byte>, k: nat): seq<Byte>
    requires |h| == Offset(14) && k < 14 && Offset(k) <= Offset(k + 1) <= Offset(14)
  {
    h[Offset(k)..Offset(k + 1)]
  }

  /** An array is accepted when it has the bytes of count entries, modulo 2^32, and the checksum in
      the header. All entries are covered exactly when they take less than 4 GB. */
  lemma EntriesMean(h: seq<Byte>, entries: seq<Byte>)
    requires |h| == 92
    ensures |h| == Offset(14) && Offset(11) <= Offset(12) <= Offset(13) <= Offset(14)
    ensures var count, size := Le(Field(h, 11)) as nat, Le(Field(h, 12)) as nat;
            && (ValidEntries(h, entries) ==>
                  Checksum(entries) == Le(Field(h, 13)) && (|entries| == count * size <==> count * size < 0x1_0000_0000))
            && (count * size < 0x1_0000_0000 && |entries| == count * size ==>
                  (ValidEntries(h, entries) <==> Checksum(entries) == Le(Field(h, 13))))
  {
    hide Le, Checksum, Offset;
    FieldOffsets();
    var count, size := Le(Field(h, 11)) as nat, Le(Field(h, 12)) as nat;
    ProductModulo(count, size);
  }

  lemma ProductModulo(count: nat, size: nat)
    ensures size * count == count * size
    ensures count * size % 0x1_0000_0000 == count * size <==> count * size < 0x1_0000_0000
  {
  }

  /** An entry array damaged inside four consecutive bytes never passes. */
  lemma EntryDamageRejected(h: seq<Byte>, entries: seq<Byte>, damaged: seq<Byte>, i: nat, w: nat)
    requires |h| == HEADER_SIZE && ValidEntries(h, entries) && |damaged| == |entries|
    requires w <= 4 && i + w <= |entries| && SameOutside(entries, damaged, i, w) && damaged != entries
    ensures !ValidEntries(h, damaged)
  {
    hide Checksum, Le;
    BurstDetected(entries, damaged, i, w);
  }
}
