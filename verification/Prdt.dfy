/** The physical region descriptor tables of AHCI reads and writes. */
module Prdt {
  import opened Machine

  const MAX_PRDT_SIZE: nat := 8
  const PAGE: nat := 4096
  /** Bytes of one write descriptor. */
  const PIECE: nat := 8192
  const P16: nat := 0x1_0000
  /** data_byte_count has 22 bits. */
  const P22: nat := 0x40_0000

  datatype Entry = Entry(base: nat, upper: nat, byteCount: nat, interrupt: bool)

  /** The physical address an entry names. */
  function Address(e: Entry): nat {
    e.base + e.upper * P32
  }

  /** The field holds one less than the number of bytes. */
  function Length(e: Entry): nat {
    e.byteCount + 1
  }

  function Total(es: seq<Entry>): nat {
    if es == [] then 0 else Total(es[..|es| - 1]) + Length(es[|es| - 1])
  }

  /** The entries name the `total` bytes from `phys` on, in order and without gap. */
  predicate Tiles(es: seq<Entry>, phys: nat, total: nat) {
    if es == [] then total == 0
    else
      var e := es[|es| - 1];
      Length(e) <= total && Address(e) == phys + (total - Length(e)) && Tiles(es[..|es| - 1], phys, total - Length(e))
  }

  /** What an entry can say of an address: without 64-bit addressing its low half. */
  function Seen(x: nat, wide: bool): nat {
    if wide then x else x % P32
  }

  /** The same with the addresses as the controller sees them. */
  predicate TilesSeen(es: seq<Entry>, phys: nat, total: nat, wide: bool) {
    if es == [] then total == 0
    else
      var e := es[|es| - 1];
      && Length(e) <= total && Address(e) == Seen(phys + (total - Length(e)), wide)
      && TilesSeen(es[..|es| - 1], phys, total - Length(e), wide)
  }

  lemma {:induction false} SeenTiles(es: seq<Entry>, phys: nat, total: nat, wide: bool)
    requires TilesSeen(es, phys, total, wide) && (wide || phys + total <= P32)
    ensures Tiles(es, phys, total)
    decreases |es|
  {
    if es != [] {
      SeenTiles(es[..|es| - 1], phys, total - Length(es[|es| - 1]), wide);
    }
  }

  /** A table of pieces inside pages names the buffer exactly when the controller has 64-bit
      addresses or the buffer ends by 4 GB. */
  lemma SeenExactly(es: seq<Entry>, phys: nat, total: nat, wide: bool)
    requires TilesSeen(es, phys, total, wide) && es != [] && InPage(es[|es| - 1])
    ensures Tiles(es, phys, total) <==> wide || phys + total <= P32
  {
    if wide || phys + total <= P32 {
      SeenTiles(es, phys, total, wide);
    } else if Tiles(es, phys, total) {
      var e := es[|es| - 1];
      var x: nat := phys + (total - Length(e));
      assert Address(e) == x == x % P32;
      PageBelow(x, Length(e));
    }
  }

  lemma PageBelow(x: nat, n: nat)
    requires x < P32 && x % PAGE + n <= PAGE
    ensures x + n <= P32
  {
    var k := x / PAGE;
    assert x == k * PAGE + x % PAGE && k < 0x10_0000;
  }

  predicate Holds(e: Entry, x: nat) {
    Address(e) <= x < Address(e) + Length(e)
  }

  /** Every byte of the buffer is in exactly one entry, and no other byte is in any. */
  lemma {:induction false} CoversOnce(es: seq<Entry>, phys: nat, total: nat, x: nat)
    requires Tiles(es, phys, total)
    ensures phys <= x < phys + total <==> exists i :: 0 <= i < |es| && Holds(es[i], x)
    ensures forall i, j :: 0 <= i < j < |es| && Holds(es[i], x) ==> !Holds(es[j], x)
    decreases |es|
  {
    if es != [] {
      var n := |es| - 1;
      var init := es[..n];
      CoversOnce(init, phys, total - Length(es[n]), x);
      assert forall i :: 0 <= i < n ==> es[i] == init[i];
      if phys <= x < phys + (total - Length(es[n])) {
        var i :| 0 <= i < n && Holds(init[i], x);
        assert Holds(es[i], x);
      } else if Holds(es[n], x) {
        assert es[n] in es;
      }
    }
  }

  lemma SeenMore(es: seq<Entry>, phys: nat, total: nat, e: Entry, wide: bool)
    requires TilesSeen(es, phys, total, wide) && Address(e) == Seen(phys + total, wide)
    ensures TilesSeen(es + [e], phys, total + Length(e), wide)
  {
    assert (es + [e])[..|es|] == es;
  }

  lemma TilesMore(es: seq<Entry>, phys: nat, total: nat, e: Entry)
    requires Tiles(es, phys, total) && Address(e) == phys + total
    ensures Tiles(es + [e], phys, total + Length(e))
  {
    assert (es + [e])[..|es|] == es;
  }

  lemma TotalMore(es: seq<Entry>, e: Entry)
    ensures Total(es + [e]) == Total(es) + Length(e)
  {
    assert (es + [e])[..|es|] == es;
  }

  /** A controller without 64-bit addressing gets the low half only. */
  function Describe(phys: nat, length: nat, last: bool, wide: bool): Entry
    requires length > 0
  {
    Entry(phys % P32, if wide then phys / P32 else 0, (length - 1) % P22, last)
  }

  /** The fields hold what is written to them: 32 bits of address in each half, 22 of the count. */
  predicate InFields(e: Entry) {
    e.base < 0x1_0000_0000 && e.upper < 0x1_0000_0000 && e.byteCount < 0x40_0000
  }

  lemma DescribedInFields(phys: nat, length: nat, last: bool, wide: bool)
    requires 0 < length && phys < U64
    ensures InFields(Describe(phys, length, last, wide))
  {
  }

  lemma DescribeIs(phys: nat, length: nat, last: bool, wide: bool)
    requires 0 < length <= P22
    ensures Address(Describe(phys, length, last, wide)) == Seen(phys, wide)
    ensures Length(Describe(phys, length, last, wide)) == length
  {
  }

  // ----- read -----

  /** How many pages the buffer touches. */
  function Pages(phys: nat, total: nat): nat {
    if total == 0 then 0 else (phys + total - 1) / PAGE - phys / PAGE + 1
  }

  /** A step to the end of the page, or of the buffer, leaves one page fewer. */
  lemma PagesStep(phys: nat, total: nat, step: nat)
    requires 0 < total && step == (if PAGE - phys % PAGE < total then PAGE - phys % PAGE else total)
    ensures Pages(phys + step, total - step) == Pages(phys, total) - 1
  {
    if step < total {
      assert (phys + step) / PAGE == phys / PAGE + 1;
    }
  }

  predicate InPage(e: Entry) {
    Address(e) % PAGE + Length(e) <= PAGE
  }

  /** The byte count, in 32 bits. */
  function Transfer(count: nat, sectorSize: nat): nat {
    count * sectorSize % P32
  }

  /** The table of a read: false when the buffer touches more than eight pages, else the
      buffer's pieces page by page, the last one alone raising the interrupt. The byte count
      wraps, so the table covers the request only below 4 GB: 2^23 sectors of 512 bytes succeed
      with no entry. */
  method BuildRead(prdt: array<Entry>, phys: nat, count: nat, sectorSize: nat, wide: bool) returns (ok: bool, n: nat)
    requires prdt.Length == MAX_PRDT_SIZE
    modifies prdt
    ensures ok <==> Pages(phys, Transfer(count, sectorSize)) <= MAX_PRDT_SIZE
    ensures ok ==> n == Pages(phys, Transfer(count, sectorSize))
                   && TilesSeen(prdt[..n], phys, Transfer(count, sectorSize), wide)
    ensures ok && n > 0 ==>
      (Tiles(prdt[..n], phys, Transfer(count, sectorSize)) <==> wide || phys + Transfer(count, sectorSize) <= P32)
    ensures ok ==>
      (Tiles(prdt[..n], phys, count * sectorSize) <==>
        count * sectorSize < P32 && (n == 0 || wide || phys + count * sectorSize <= P32))
    ensures ok ==> forall k :: 0 <= k < n ==> InPage(prdt[k]) && (prdt[k].interrupt <==> k == n - 1)
    ensures ok && phys + Transfer(count, sectorSize) <= U64 ==> forall k :: 0 <= k < n ==> InFields(prdt[k])
  {
    hide Tiles, TilesSeen, Pages, Describe, InPage, InFields, Transfer;
    ghost var total: nat := Transfer(count, sectorSize);
    var at: nat, remaining: nat := phys, Transfer(count, sectorSize);
    n := 0;
    PagesNone(phys);
    SeenNone(prdt[..0], phys, wide);
    while remaining > 0
      invariant n <= MAX_PRDT_SIZE && remaining <= total && at == phys + (total - remaining)
      invariant TilesSeen(prdt[..n], phys, total - remaining, wide)
      invariant n + Pages(at, remaining) == Pages(phys, total)
      invariant forall k :: 0 <= k < n ==> InPage(prdt[k]) && (prdt[k].interrupt <==> remaining == 0 && k == n - 1)
      invariant phys + total <= U64 ==> forall k :: 0 <= k < n ==> InFields(prdt[k])
      decreases remaining
    {
      PagesSome(at, remaining);
      if n >= MAX_PRDT_SIZE {
        return false, n;
      }
      var step := if PAGE - at % PAGE < remaining then PAGE - at % PAGE else remaining;
      PagesStep(at, remaining, step);
      PieceInPage(at, step, remaining - step == 0, wide);
      if at < U64 {
        DescribedInFields(at, step, remaining - step == 0, wide);
      }
      prdt[n] := Describe(at, step, remaining - step == 0, wide);
      SeenMore(prdt[..n], phys, total - remaining, prdt[n], wide);
      assert prdt[..n + 1] == prdt[..n] + [prdt[n]];
      at, remaining, n := at + step, remaining - step, n + 1;
    }
    PagesNone(at);
    ok := true;
    if n > 0 {
      SeenExactly(prdt[..n], phys, total, wide);
    }
    ReadCovers(prdt[..n], phys, count, sectorSize, wide);
  }

  lemma {:induction false} TilesTotal(es: seq<Entry>, phys: nat, total: nat)
    requires Tiles(es, phys, total)
    ensures Total(es) == total
  {
    if es != [] {
      TilesTotal(es[..|es| - 1], phys, total - Length(es[|es| - 1]));
    }
  }

  lemma {:induction false} SeenTotal(es: seq<Entry>, phys: nat, total: nat, wide: bool)
    requires TilesSeen(es, phys, total, wide)
    ensures Total(es) == total
  {
    if es != [] {
      SeenTotal(es[..|es| - 1], phys, total - Length(es[|es| - 1]), wide);
    }
  }

  lemma TransferIs(count: nat, sectorSize: nat)
    ensures Transfer(count, sectorSize) == count * sectorSize <==> count * sectorSize < P32
  {
  }

  /** A read's table covers the whole request exactly when the byte count did not wrap and the
      controller can name the buffer. */
  lemma ReadCovers(es: seq<Entry>, phys: nat, count: nat, sectorSize: nat, wide: bool)
    requires TilesSeen(es, phys, Transfer(count, sectorSize), wide) && (es == [] || InPage(es[|es| - 1]))
    ensures Tiles(es, phys, count * sectorSize) <==>
              count * sectorSize < P32 && (es == [] || wide || phys + count * sectorSize <= P32)
  {
    hide InPage, Transfer;
    SeenTotal(es, phys, Transfer(count, sectorSize), wide);
    TransferIs(count, sectorSize);
    if count * sectorSize < P32 {
      if es != [] {
        SeenExactly(es, phys, count * sectorSize, wide);
      }
    } else if Tiles(es, phys, count * sectorSize) {
      TilesTotal(es, phys, count * sectorSize);
    }
  }

  lemma PagesNone(phys: nat)
    ensures Pages(phys, 0) == 0
  {
  }

  lemma PagesSome(phys: nat, total: nat)
    requires total > 0
    ensures Pages(phys, total) > 0
  {
  }

  lemma SeenNone(es: seq<Entry>, phys: nat, wide: bool)
    requires es == []
    ensures TilesSeen(es, phys, 0, wide)
  {
  }

  lemma PieceInPage(at: nat, step: nat, last: bool, wide: bool)
    requires 0 < step && at % PAGE + step <= PAGE
    ensures var e := Describe(at, step, last, wide);
            InPage(e) && Length(e) == step && Address(e) == Seen(at, wide) && e.interrupt == last
  {
    DescribeIs(at, step, last, wide);
    SeenOffset(at, wide);
  }

  lemma SeenOffset(at: nat, wide: bool)
    ensures Seen(at, wide) % PAGE == at % PAGE
  {
    if !wide {
      var k := at / P32;
      assert at == k * P32 + at % P32;
      assert at / PAGE == k * 0x10_0000 + at % P32 / PAGE;
    }
  }

  // ----- write -----

  /** What becomes of a write: a table of n entries, a refusal, or stores outside the table. */
  datatype Outcome = Built(n: nat) | Refused | OutsideTable

  function SectorsPerPiece(sectorSize: nat): (s: nat)
    requires 0 < sectorSize <= PIECE
    ensures s > 0
  {
    PIECE / sectorSize
  }

  /** Whole pieces before the last one, in 32 bits. */
  function Before(count: nat, perPiece: nat): nat
    requires count < P32 && perPiece > 0
  {
    (count + P32 - 1) % P32 / perPiece
  }

  function WriteOutcome(count: nat, perPiece: nat): Outcome
    requires count < P32 && perPiece > 0
  {
    var length := (Before(count, perPiece) % P16 + 1) % P16;
    if length > MAX_PRDT_SIZE then Refused else if length == 0 then OutsideTable else Built(length)
  }

  /** The bytes of the last entry: `count` sectors, in 32 bits. */
  function LastBytes(count: nat, sectorSize: nat): (n: nat)
    ensures n > 0
  {
    (count * sectorSize % P32 + P32 - 1) % P32 + 1
  }

  /** Sectors left after k whole pieces, in 32 bits. */
  function Left(count: nat, perPiece: nat, k: nat): nat {
    if k == 0 then count else (Left(count, perPiece, k - 1) + P32 - perPiece) % P32
  }

  /** n - 1 whole pieces and the rest. */
  function WriteTable(phys: nat, count: nat, sectorSize: nat, n: nat, wide: bool): (es: seq<Entry>)
    requires 0 < sectorSize <= PIECE && n > 0
    ensures |es| == n
  {
    Whole(phys, n - 1, wide)
      + [Describe(phys + (n - 1) * PIECE, LastBytes(Left(count, SectorsPerPiece(sectorSize), n - 1), sectorSize), true, wide)]
  }

  function Whole(phys: nat, k: nat, wide: bool): (es: seq<Entry>)
    ensures |es| == k
  {
    if k == 0 then [] else Whole(phys, k - 1, wide) + [Describe(phys + (k - 1) * PIECE, PIECE, true, wide)]
  }

  /** Pieces needed for so many sectors. */
  function Pieces(count: nat, perPiece: nat): nat
    requires count > 0 && perPiece > 0
  {
    (count - 1) / perPiece + 1
  }

  /** The 16-bit field holds the piece count modulo 65536, and that alone decides: a multiple of
      65536 leads the code to store in front of the table. */
  lemma OutcomeExactly(count: nat, perPiece: nat)
    requires 0 < count < P32 && perPiece > 0
    ensures var m := Pieces(count, perPiece) % P16;
            WriteOutcome(count, perPiece) == if m == 0 then OutsideTable else if m <= MAX_PRDT_SIZE then Built(m) else Refused
  {
    hide Before;
    BeforeIs(count, perPiece);
    NextModulo(Before(count, perPiece));
  }

  lemma NextModulo(q: nat)
    ensures (q % P16 + 1) % P16 == (q + 1) % P16
  {
  }

  /** An empty write stores in front of the table exactly when the sectors of a piece divide
      65536. */
  lemma EmptyOutside(perPiece: nat)
    requires 0 < perPiece <= PIECE
    ensures WriteOutcome(0, perPiece) == OutsideTable <==> P16 % perPiece == 0
  {
    hide Before;
    var u, r := P16 / perPiece, P16 % perPiece;
    assert P16 == u * perPiece + r;
    OutsideIs(perPiece);
    if r == 0 {
      EmptyEven(perPiece, u);
    } else {
      EmptyUneven(perPiece, u, r);
    }
  }

  lemma OutsideIs(perPiece: nat)
    requires perPiece > 0
    ensures WriteOutcome(0, perPiece) == OutsideTable <==> (Before(0, perPiece) + 1) % P16 == 0
  {
    hide Before;
    NextModulo(Before(0, perPiece));
  }

  lemma EmptyEven(perPiece: nat, u: nat)
    requires perPiece > 0 && P16 == u * perPiece
    ensures (Before(0, perPiece) + 1) % P16 == 0
  {
    hide Before;
    assert (u * P16 - 1) * perPiece == P32 - perPiece by {
      Associate(P16, u, perPiece);
      Distribute(u * P16 - 1, 1, perPiece);
    }
    assert u > 0;
    EmptyBefore(perPiece, u * P16 - 1);
    DivUnique(u * P16, P16, u, 0);
  }

  lemma EmptyUneven(perPiece: nat, u: nat, r: nat)
    requires perPiece <= P16 && P16 == u * perPiece + r && 0 < r < perPiece
    ensures (Before(0, perPiece) + 1) % P16 != 0
  {
    hide Before;
    var v: nat := (r * P16 - 1) / perPiece;
    assert v * perPiece <= r * P16 - 1 < v * perPiece + perPiece;
    assert P32 == u * P16 * perPiece + r * P16 by {
      Distribute(u * perPiece, r, P16);
      Associate(P16, u, perPiece);
      Associate(u, perPiece, P16);
    }
    Distribute(u * P16, v, perPiece);
    EmptyBefore(perPiece, u * P16 + v);
    ShortOfLap(v, perPiece, r);
    DivUnique(u * P16 + v + 1, P16, u, v + 1);
  }

  lemma EmptyBefore(perPiece: nat, q: nat)
    requires perPiece > 0 && q * perPiece <= P32 - 1 < q * perPiece + perPiece
    ensures Before(0, perPiece) == q
  {
    QuotientIs(P32 - 1, perPiece, q);
  }

  lemma ShortOfLap(v: nat, perPiece: nat, r: nat)
    requires 0 < r < perPiece <= P16 && v * perPiece <= r * P16 - 1
    ensures v + 1 < P16
  {
    Monotone(r + 1, perPiece, P16);
    if v + 1 >= P16 {
      Monotone(P16, v + 1, perPiece);
      Distribute(v, 1, perPiece);
      assert false;
    }
  }

  method BuildWrite(prdt: array<Entry>, phys: nat, count: nat, sectorSize: nat, wide: bool) returns (r: Outcome)
    requires prdt.Length == MAX_PRDT_SIZE && count < P32 && 0 < sectorSize <= PIECE
    modifies prdt
    ensures r == WriteOutcome(count, SectorsPerPiece(sectorSize))
    ensures r.Built? ==> prdt[..r.n] == WriteTable(phys, count, sectorSize, r.n, wide)
  {
    hide Describe, LastBytes, Left, Whole;
    var perPiece := SectorsPerPiece(sectorSize);
    var length := ((count + P32 - 1) % P32 / perPiece % P16 + 1) % P16;
    if length > MAX_PRDT_SIZE {
      return Refused;
    }
    if length == 0 {
      return OutsideTable;
    }
    r := Built(length);
    FillWrite(prdt, phys, count, sectorSize, wide, perPiece, length);
  }

  /** The loop and the last entry. */
  method FillWrite(prdt: array<Entry>, phys: nat, count: nat, sectorSize: nat, wide: bool, perPiece: nat, length: nat)
    requires prdt.Length == MAX_PRDT_SIZE && 0 < length <= MAX_PRDT_SIZE && count < P32
    requires 0 < sectorSize <= PIECE && perPiece == SectorsPerPiece(sectorSize)
    modifies prdt
    ensures prdt[..length] == WriteTable(phys, count, sectorSize, length, wide)
  {
    hide Describe, LastBytes, SectorsPerPiece;
    var at: nat, left: nat, i: nat := phys, count, 0;
    while i < length - 1
      invariant i <= length - 1 && at == phys + i * PIECE && left == Left(count, perPiece, i)
      invariant prdt[..i] == Whole(phys, i, wide)
    {
      prdt[i] := Describe(at, PIECE, true, wide);
      assert prdt[..i + 1] == prdt[..i] + [prdt[i]];
      at, left, i := at + PIECE, (left + P32 - perPiece) % P32, i + 1;
    }
    prdt[length - 1] := Describe(at, LastBytes(left, sectorSize), true, wide);
    assert prdt[..length] == prdt[..length - 1] + [prdt[length - 1]];
  }

  /** A piece has as many whole sectors as 8 KB hold. */
  lemma PieceSize(sectorSize: nat)
    requires 0 < sectorSize <= PIECE
    ensures var s := SectorsPerPiece(sectorSize); s > 0 && 4096 <= s * sectorSize <= 8192 < (s + 1) * sectorSize
  {
    var s := PIECE / sectorSize;
    assert s * sectorSize <= PIECE < s * sectorSize + sectorSize;
    assert (s + 1) * sectorSize == s * sectorSize + sectorSize;
    assert s >= 1;
    Least(s, sectorSize);
  }

  lemma Least(s: nat, size: nat)
    requires s >= 1
    ensures s * size >= size
  {
  }

  lemma {:induction false} WholeTotal(phys: nat, k: nat, wide: bool)
    ensures Total(Whole(phys, k, wide)) == k * PIECE
  {
    if k > 0 {
      WholeTotal(phys, k - 1, wide);
      TotalMore(Whole(phys, k - 1, wide), Describe(phys + (k - 1) * PIECE, PIECE, true, wide));
    }
  }

  lemma {:induction false} WholeTiles(phys: nat, k: nat, wide: bool)
    requires wide || phys + k * PIECE <= P32
    ensures Tiles(Whole(phys, k, wide), phys, k * PIECE)
  {
    if k > 0 {
      WholeTiles(phys, k - 1, wide);
      DescribeIs(phys + (k - 1) * PIECE, PIECE, true, wide);
      TilesMore(Whole(phys, k - 1, wide), phys, (k - 1) * PIECE, Describe(phys + (k - 1) * PIECE, PIECE, true, wide));
    }
  }

  lemma {:induction false} LeftIs(count: nat, perPiece: nat, k: nat)
    requires k * perPiece <= count < P32
    ensures Left(count, perPiece, k) == count - k * perPiece
  {
    if k > 0 {
      assert k * perPiece == (k - 1) * perPiece + perPiece;
      LeftIs(count, perPiece, k - 1);
    }
  }

  /** Few enough sectors for eight whole pieces: q of them before the last one. */
  lemma FewPieces(count: nat, sectorSize: nat, q: nat)
    requires 0 < count < P32 && 0 < sectorSize <= PIECE && q < MAX_PRDT_SIZE
    requires var s := SectorsPerPiece(sectorSize); s > 0 && q * s < count <= q * s + s
    ensures var s := SectorsPerPiece(sectorSize);
            && WriteOutcome(count, s) == Built(q + 1)
            && Left(count, s, q) == count - q * s
            && 0 < (count - q * s) * sectorSize <= PIECE
            && LastBytes(count - q * s, sectorSize) == (count - q * s) * sectorSize
  {
    hide SectorsPerPiece, WriteOutcome, Before, Left, LastBytes;
    var s := SectorsPerPiece(sectorSize);
    PieceSize(sectorSize);
    BeforeIs(count, s);
    QuotientIs(count - 1, s, q);
    ShortUncut(count, s, q);
    LeftIs(count, s, q);
    LastPiece(count - q * s, s, sectorSize);
  }

  lemma ShortUncut(count: nat, s: nat, q: nat)
    requires count < P32 && s > 0 && Before(count, s) == q < MAX_PRDT_SIZE
    ensures WriteOutcome(count, s) == Built(q + 1)
  {
    hide Before;
  }

  lemma LastPiece(rest: nat, s: nat, sectorSize: nat)
    requires 0 < rest <= s && s * sectorSize <= PIECE && 0 < sectorSize
    ensures 0 < rest * sectorSize <= PIECE && LastBytes(rest, sectorSize) == rest * sectorSize
  {
    Monotone(rest, s, sectorSize);
    Least(rest, sectorSize);
    InRange(rest * sectorSize);
  }

  lemma InRange(x: nat)
    requires 0 < x <= PIECE
    ensures (x % P32 + P32 - 1) % P32 + 1 == x
  {
  }

  lemma QuotientIs(x: nat, d: nat, q: nat)
    requires d > 0 && q * d <= x < q * d + d
    ensures x / d == q
  {
    DivUnique(x, d, q, x - q * d);
  }

  lemma Monotone(a: nat, b: nat, c: nat)
    requires a <= b
    ensures a * c <= b * c && (a + 1) * c == a * c + c
  {
  }

  lemma WriteTotal(phys: nat, count: nat, sectorSize: nat, q: nat, wide: bool)
    requires 0 < count < P32 && 0 < sectorSize <= PIECE && q < MAX_PRDT_SIZE
    requires var s := SectorsPerPiece(sectorSize); s > 0 && q * s < count <= q * s + s
    ensures Total(WriteTable(phys, count, sectorSize, q + 1, wide))
         == q * PIECE + (count - q * SectorsPerPiece(sectorSize)) * sectorSize
  {
    hide Total, Whole, Left, LastBytes, WriteOutcome, SectorsPerPiece;
    var s := SectorsPerPiece(sectorSize);
    FewPieces(count, sectorSize, q);
    WholeTotal(phys, q, wide);
    var last := Describe(phys + q * PIECE, (count - q * s) * sectorSize, true, wide);
    TotalMore(Whole(phys, q, wide), last);
  }

  lemma Deficit(q: nat, s: nat, size: nat, count: nat)
    requires q * s <= count
    ensures q * PIECE + (count - q * s) * size == count * size <==> q == 0 || s * size == PIECE
  {
    var rest: nat := count - q * s;
    assert count * size == q * (s * size) + rest * size by {
      assert count == q * s + rest;
      Distribute(q * s, rest, size);
      Associate(q, s, size);
    }
    Cancel(q, PIECE, s * size);
  }

  lemma Distribute(a: nat, b: nat, c: nat)
    ensures (a + b) * c == a * c + b * c
  {
  }

  lemma Associate(a: nat, b: nat, c: nat)
    ensures a * b * c == a * (b * c)
  {
  }

  lemma Cancel(q: nat, a: nat, b: nat)
    ensures q * a == q * b <==> q == 0 || a == b
  {
    if q > 0 && a < b {
      Monotone(a + 1, b, q);
    } else if q > 0 && b < a {
      Monotone(b + 1, a, q);
    }
  }

  /** No table holds as many bytes as 2^16 pieces. */
  lemma {:induction false} TotalBound(es: seq<Entry>)
    requires forall i :: 0 <= i < |es| ==> Length(es[i]) <= P22
    ensures Total(es) <= |es| * P22
  {
    if es != [] {
      TotalBound(es[..|es| - 1]);
    }
  }

  lemma {:induction false} WholeShort(phys: nat, k: nat, wide: bool)
    ensures forall i :: 0 <= i < k ==> Length(Whole(phys, k, wide)[i]) <= PIECE
  {
    if k > 0 {
      WholeShort(phys, k - 1, wide);
    }
  }

  lemma {:induction false} WholeFields(phys: nat, k: nat, wide: bool)
    requires phys + k * PIECE <= U64
    ensures forall i :: 0 <= i < k ==> Whole(phys, k, wide)[i].interrupt && InFields(Whole(phys, k, wide)[i])
  {
    hide InFields, Describe;
    if k > 0 {
      WholeFields(phys, k - 1, wide);
      DescribedInFields(phys + (k - 1) * PIECE, PIECE, true, wide);
      AlwaysInterrupts(phys + (k - 1) * PIECE, PIECE, wide);
    }
  }

  lemma AlwaysInterrupts(phys: nat, length: nat, wide: bool)
    requires length > 0
    ensures Describe(phys, length, true, wide).interrupt
  {
  }

  /** Every entry of a write raises the interrupt. */
  lemma WriteFields(phys: nat, count: nat, sectorSize: nat, n: nat, wide: bool)
    requires 0 < sectorSize <= PIECE && n > 0 && phys + n * PIECE <= U64
    ensures forall i :: 0 <= i < n ==>
              WriteTable(phys, count, sectorSize, n, wide)[i].interrupt && InFields(WriteTable(phys, count, sectorSize, n, wide)[i])
  {
    hide InFields, Describe, Whole, LastBytes, Left;
    WholeFields(phys, n - 1, wide);
    var rest := LastBytes(Left(count, SectorsPerPiece(sectorSize), n - 1), sectorSize);
    DescribedInFields(phys + (n - 1) * PIECE, rest, true, wide);
    AlwaysInterrupts(phys + (n - 1) * PIECE, rest, wide);
  }

  /** A table whose length was cut to 16 bits is far too short. */
  lemma CutIsShort(phys: nat, count: nat, sectorSize: nat, wide: bool)
    requires 0 < count < P32 && 0 < sectorSize <= PIECE
    requires var s := SectorsPerPiece(sectorSize); s > 0 && count > 8 * s && WriteOutcome(count, s).Built?
    ensures Total(WriteTable(phys, count, sectorSize, WriteOutcome(count, SectorsPerPiece(sectorSize)).n, wide))
          < count * sectorSize
  {
    hide Total, Left, LastBytes, Whole, SectorsPerPiece;
    var s := SectorsPerPiece(sectorSize);
    var n := WriteOutcome(count, s).n;
    var es := WriteTable(phys, count, sectorSize, n, wide);
    WholeShort(phys, n - 1, wide);
    TotalBound(es);
    PieceSize(sectorSize);
    ManySectors(count, s);
    Monotone(P16 * s, count, sectorSize);
    Associate(P16, s, sectorSize);
  }

  lemma ManySectors(count: nat, s: nat)
    requires 0 < count < P32 && s > 0 && count > 8 * s && WriteOutcome(count, s).Built?
    ensures count > P16 * s
  {
    hide WriteOutcome;
    var q := Before(count, s);
    BeforeIs(count, s);
    QuotientAtLeast(count - 1, s, 8);
    LongCut(count, s);
    Monotone(P16, q, s);
  }

  lemma BeforeIs(count: nat, s: nat)
    requires 0 < count < P32 && s > 0
    ensures var q := Before(count, s); q == (count - 1) / s && q * s <= count - 1 < q * s + s
  {
  }

  lemma QuotientAtLeast(x: nat, d: nat, k: nat)
    requires d > 0 && x >= k * d
    ensures x / d >= k
  {
    if x / d < k {
      assert x < x / d * d + d;
      Monotone(x / d + 1, k, d);
    }
  }

  lemma LongCut(count: nat, s: nat)
    requires count < P32 && s > 0 && Before(count, s) >= 8 && WriteOutcome(count, s).Built?
    ensures Before(count, s) >= P16
  {
    hide Before;
  }

  /** A table is built and describes the whole transfer exactly when eight pieces hold it and
      either one piece does or the sector size divides 8192. */
  lemma WriteCovers(phys: nat, count: nat, sectorSize: nat, wide: bool)
    requires 0 < count < P32 && 0 < sectorSize <= PIECE
    ensures var s := SectorsPerPiece(sectorSize);
            var r := WriteOutcome(count, s);
            (r.Built? && Total(WriteTable(phys, count, sectorSize, r.n, wide)) == count * sectorSize)
              <==> (count <= 8 * s && (count <= s || s * sectorSize == 8192))
  {
    hide WriteTable, Total, SectorsPerPiece, WriteOutcome;
    var s := SectorsPerPiece(sectorSize);
    PieceSize(sectorSize);
    if count <= 8 * s {
      var q := WholePieces(count, s);
      FewPieces(count, sectorSize, q);
      WriteTotal(phys, count, sectorSize, q, wide);
      Deficit(q, s, sectorSize, count);
    } else if WriteOutcome(count, s).Built? {
      CutIsShort(phys, count, sectorSize, wide);
    }
  }

  lemma WholePieces(count: nat, s: nat) returns (q: nat)
    requires s > 0 && 0 < count <= 8 * s
    ensures q < 8 && q * s < count <= q * s + s
    ensures q == 0 <==> count <= s
  {
    q := (count - 1) / s;
    assert q * s <= count - 1 < q * s + s;
    if q >= 8 {
      Monotone(8, q, s);
    }
    if q >= 1 {
      Monotone(1, q, s);
    }
  }

  /** And then its entries name the buffer's bytes in order, at most 8192 at a time. */
  lemma WriteTiles(phys: nat, count: nat, sectorSize: nat, wide: bool)
    requires 0 < count < P32 && 0 < sectorSize <= PIECE && (wide || phys + count * sectorSize <= P32)
    requires var s := SectorsPerPiece(sectorSize); s > 0 && count <= 8 * s && (count <= s || s * sectorSize == 8192)
    ensures var r := WriteOutcome(count, SectorsPerPiece(sectorSize));
            && r.Built?
            && Tiles(WriteTable(phys, count, sectorSize, r.n, wide), phys, count * sectorSize)
            && forall i :: 0 <= i < r.n ==> Length(WriteTable(phys, count, sectorSize, r.n, wide)[i]) <= 8192
  {
    hide Tiles, Left, LastBytes, SectorsPerPiece, WriteOutcome, Describe, Whole, Length, Address;
    var s := SectorsPerPiece(sectorSize);
    var q := WholePieces(count, s);
    FewPieces(count, sectorSize, q);
    Deficit(q, s, sectorSize, count);
    WholeTiles(phys, q, wide);
    WholeShort(phys, q, wide);
    LastTile(phys, q, (count - q * s) * sectorSize, wide);
  }

  lemma LastTile(phys: nat, q: nat, rest: nat, wide: bool)
    requires 0 < rest <= PIECE && (wide || phys + q * PIECE + rest <= P32)
    requires Tiles(Whole(phys, q, wide), phys, q * PIECE)
    ensures var e := Describe(phys + q * PIECE, rest, true, wide);
            Tiles(Whole(phys, q, wide) + [e], phys, q * PIECE + rest) && Length(e) == rest
  {
    hide Tiles, Describe, Whole, Length, Address;
    DescribeIs(phys + q * PIECE, rest, true, wide);
    TilesMore(Whole(phys, q, wide), phys, q * PIECE, Describe(phys + q * PIECE, rest, true, wide));
  }

  /** 512 MB and a sector: the piece count is cut to one, and the table names one sector. */
  lemma CutExample(phys: nat)
    ensures var count: nat := 0x10_0001;
            && WriteOutcome(count, SectorsPerPiece(512)) == Built(1)
            && Total(WriteTable(phys, count, 512, 1, true)) == 512
  {
    var e := WriteTable(phys, 0x10_0001, 512, 1, true)[0];
    assert Left(0x10_0001, 16, 0) == 0x10_0001;
    assert Length(e) == 512;
    TotalMore([], e);
  }
}
