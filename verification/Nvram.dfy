/** The bnx2 NVRAM: byte-exact reads and writes, at any offset and length, over a
    flash that only takes aligned dwords and, when it is not buffered, only clears
    bits until a page is erased. */
module Nvram {

  type Byte = bv8

  /** struct flash_spec, as far as addressing goes. */
  datatype FlashSpec = FlashSpec(buffered: bool, translate: bool, pageBits: nat, pageSize: nat)

  function Pow2(n: nat): (p: nat)
    ensures p > 0
  {
    if n == 0 then 1 else 2 * Pow2(n - 1)
  }

  /** Physical pages are powers of two that logical pages fit into; only buffered
      flash is translated; flash_buffer has 264 bytes. */
  predicate SpecOk(f: FlashSpec) {
    && 4 <= f.pageSize <= 264 && Dword(f.pageSize) && f.pageSize <= Pow2(f.pageBits)
    && (f.translate ==> f.buffered)
  }

  /** The address that a dword primitive gives to the device. */
  function Translate(f: FlashSpec, offset: nat): nat
    requires f.pageSize > 0
  {
    if f.translate then offset / f.pageSize * Pow2(f.pageBits) + offset % f.pageSize else offset
  }

  /** A multiple of four: where a dword begins or ends. */
  predicate Dword(x: int) {
    x % 4 == 0
  }

  lemma DwordStep(a: nat, b: nat)
    requires Dword(a) && Dword(b)
    ensures Dword(0) && Dword(4) && Dword(a + 4) && Dword(b + 4) && Dword(a + b)
    ensures a < b ==> a + 4 <= b
    ensures b > 0 ==> b >= 4 && Dword(b - 4)
  {
  }

  /** Whole dwords that cover less than a dword more than a range of the device
      stay within it. */
  lemma DwordEnd(start: nat, len: nat, end: nat, size: nat)
    requires Dword(start) && Dword(len) && Dword(size) && end <= size && start + len < end + 4
    ensures start + len <= size
  {
  }

  /** x & 3, x & ~3, and x rounded up to a whole dword. */
  function Over(x: nat): (r: nat)
    ensures r < 4 && (r == 0 <==> Dword(x))
  {
    x % 4
  }

  function Floor4(x: nat): (r: nat)
    ensures Dword(r) && r + Over(x) == x
  {
    x - x % 4
  }

  function Ceil4(x: nat): (r: nat)
    ensures Dword(r) && x <= r < x + 4
    ensures r == if Over(x) == 0 then x else x + (4 - Over(x))
  {
    if x % 4 == 0 then x else x + (4 - x % 4)
  }

  /** Rounding is relative to any dword, and adding 4 first rounds up. */
  lemma Rounding(a: nat, x: nat)
    requires Dword(a)
    ensures Over(a + x) == Over(x) && Ceil4(a + x) == a + Ceil4(x)
    ensures Over(x) != 0 ==> Floor4(x + 4) == Ceil4(x)
    ensures x > 0 ==> Ceil4(x) >= 4
  {
  }

  /** Commands issued to the flash, with the boundary flags of their burst. */
  datatype Kind = Rd | Wr | Erase
  datatype Cmd = Cmd(kind: Kind, addr: nat, first: bool, last: bool)

  /** A burst over the dwords of [from, to): FIRST on the first command if `first`,
      LAST on the final one if `last`, nothing in between. */
  function Burst(kind: Kind, from: nat, to: nat, first: bool, last: bool): seq<Cmd> {
    if to < from + 4 then []
    else Burst(kind, from, to - 4, first, false) + [Cmd(kind, to - 4, first && to - 4 == from, last)]
  }

  /** Where byte i of the NVRAM is: with logical pages in physical pages of a power
      of two, byte r of page p is the r-th cell of the p-th physical page. */
  ghost function Cell(f: FlashSpec, i: nat): nat
    requires f.pageSize > 0
  {
    if f.translate then
      assert i == (i / f.pageSize) * f.pageSize + i % f.pageSize;
      var p: nat, r: nat :| r < f.pageSize && i == p * f.pageSize + r;
      p * Pow2(f.pageBits) + r
    else
      i
  }

  /** The flash as its users see it: byte i of the NVRAM. */
  ghost function Logical(f: FlashSpec, size: nat, phys: seq<Byte>): (v: seq<Byte>)
    requires f.pageSize > 0
    ensures |v| == size
  {
    seq(size, i requires 0 <= i < size => if Cell(f, i) < |phys| then phys[Cell(f, i)] else 0)
  }

  /** a with the bytes from `at` on replaced by b. */
  function Overlay(a: seq<Byte>, at: nat, b: seq<Byte>): (r: seq<Byte>)
    requires at + |b| <= |a|
    ensures |r| == |a|
  {
    a[..at] + b + a[at + |b|..]
  }

  lemma OverlayAt(a: seq<Byte>, at: nat, b: seq<Byte>)
    requires at + |b| <= |a|
    ensures forall i :: 0 <= i < |a| ==> Overlay(a, at, b)[i] == if at <= i < at + |b| then b[i - at] else a[i]
  {
  }

  /** What programming w over the bytes `was` leaves: a flash that is not buffered
      can only clear bits. */
  function Programmed(f: FlashSpec, was: seq<Byte>, w: seq<Byte>): (r: seq<Byte>)
    requires |was| == |w|
    ensures |r| == |w|
    ensures f.buffered ==> r == w
    ensures (forall i :: 0 <= i < |was| ==> was[i] == 0xFF) ==> r == w
    ensures !f.buffered ==> forall i :: 0 <= i < |w| ==> r[i] | was[i] == was[i] && r[i] | w[i] == w[i]
  {
    if f.buffered then w else seq(|w|, i requires 0 <= i < |w| => was[i] & w[i])
  }

  /** The driver's address of a byte is the cell that the byte is in. */
  lemma TranslateIsCell(f: FlashSpec, i: nat)
    requires f.pageSize > 0
    ensures Translate(f, i) == Cell(f, i)
  {
    if f.translate {
      hide Pow2;
      assert i == (i / f.pageSize) * f.pageSize + i % f.pageSize;
      var p: nat, r: nat :| r < f.pageSize && i == p * f.pageSize + r && Cell(f, i) == p * Pow2(f.pageBits) + r;
      DivModUnique(p, r, f.pageSize, i);
    }
  }

  /** Byte r of page p of a translated flash lies r cells into the p-th physical
      page; any other flash has byte i in cell i. */
  lemma CellIs(f: FlashSpec, p: nat, r: nat)
    requires r < f.pageSize
    ensures Cell(f, p * f.pageSize + r) == p * (if f.translate then Pow2(f.pageBits) else f.pageSize) + r
  {
    if f.translate {
      hide Pow2, Cell;
      TranslateIsCell(f, p * f.pageSize + r);
      DivModUnique(p, r, f.pageSize, p * f.pageSize + r);
    }
  }

  lemma LogicalByte(f: FlashSpec, size: nat, phys: seq<Byte>, i: nat)
    requires f.pageSize > 0 && i < size
    ensures Logical(f, size, phys)[i] == if Translate(f, i) < |phys| then phys[Translate(f, i)] else 0
  {
    TranslateIsCell(f, i);
  }

  lemma TranslateInjective(f: FlashSpec, i: nat, j: nat)
    requires SpecOk(f) && i < j
    ensures Translate(f, i) < Translate(f, j)
  {
    if f.translate {
      var n, b := f.pageSize, Pow2(f.pageBits);
      var p, q := i / n, j / n;
      DivOrder(i, j, n);
      if p < q {
        assert (p + 1) * b <= q * b by { MulOrder(p + 1, q, b); }
        assert (p + 1) * b == p * b + b;
      } else {
        assert i == p * n + i % n && j == p * n + j % n;
      }
    }
  }

  lemma DivOrder(i: nat, j: nat, n: nat)
    requires n > 0 && i <= j
    ensures i / n <= j / n
  {
    if i / n > j / n { MulOrder(j / n + 1, i / n, n); }
  }

  lemma MulOrder(a: nat, b: nat, n: nat)
    requires a <= b
    ensures a * n <= b * n
  {
  }

  /** The bytes of an aligned dword stay together. */
  lemma TranslateDword(f: FlashSpec, offset: nat, k: nat)
    requires SpecOk(f) && Dword(offset) && k < 4
    ensures Translate(f, offset + k) == Translate(f, offset) + k
  {
    if f.translate {
      var n := f.pageSize;
      RemainderAligned(offset, n);
      hide Pow2;
      DivModUnique(offset / n, offset % n + k, n, offset + k);
    }
  }

  lemma RemainderAligned(x: nat, n: nat)
    requires n > 0 && Dword(n) && Dword(x)
    ensures Dword(x % n) && x % n + 4 <= n
  {
    hide Dword;
    MulDword(x / n, n);
    DwordMinus(x, x / n * n);
    assert x % n == x - x / n * n;
    DwordStep(x % n, n);
  }

  lemma MulDword(q: nat, n: nat)
    requires Dword(n)
    ensures Dword(q * n)
  {
    var m := n / 4;
    assert q * n == 4 * (q * m);
  }

  lemma DwordMinus(a: int, b: int)
    requires Dword(a) && Dword(b)
    ensures Dword(a - b)
  {
  }

  lemma DivModUnique(q: nat, r: nat, n: nat, x: nat)
    requires r < n && x == q * n + r
    ensures x / n == q && x % n == r
  {
    if x / n < q {
      MulOrder(x / n + 1, q, n);
    } else if x / n > q {
      MulOrder(q + 1, x / n, n);
    }
  }

  /** A device of `size` logical bytes that all have a physical cell, within the
      24-bit address range of the NVM_ADDR register; what is erased is whole
      pages. */
  ghost predicate DeviceOk(f: FlashSpec, size: nat, phys: nat) {
    && SpecOk(f) && Dword(size) && (f.buffered || PageAligned(f, size))
    && phys <= 0x100_0000 && (size > 0 ==> Cell(f, size - 1) < phys)
  }

  /** The entries of flash_table, up to repetition, and flash_5709. */
  const EEPROM := FlashSpec(true, true, 2, 4)
  const NON_BUFFERED := FlashSpec(false, false, 8, 256)
  const ATMEL_BUFFERED := FlashSpec(true, true, 9, 264)
  const FLASH_5709 := FlashSpec(true, false, 8, 256)

  lemma Powers()
    ensures Pow2(2) == 4 && Pow2(8) == 256 && Pow2(9) == 512
  {
    assert Pow2(8) == 4 * (4 * (4 * Pow2(2))) by { assert Pow2(4) == 4 * Pow2(2) && Pow2(6) == 4 * Pow2(4); }
  }

  /** Every flash of the table is one that the results here apply to, at its full
      size in the table. */
  lemma FlashTableOk()
    ensures DeviceOk(EEPROM, 0x1_0000, 0x1_0000)
    ensures DeviceOk(NON_BUFFERED, 0x1_0000, 0x1_0000) && DeviceOk(NON_BUFFERED, 0x2_0000, 0x2_0000)
    ensures DeviceOk(NON_BUFFERED, 0x4_0000, 0x4_0000) && DeviceOk(NON_BUFFERED, 0, 0)
    ensures DeviceOk(ATMEL_BUFFERED, 0x2_1000, 0x4_0000) && DeviceOk(ATMEL_BUFFERED, 0x4_2000, 0x8_0000)
    ensures DeviceOk(ATMEL_BUFFERED, 0, 0) && DeviceOk(FLASH_5709, 0x4_2000, 0x4_2000)
  {
    hide Cell, Pow2;
    Powers();
    LastCells(0xFFFF);
    LastCells(0x1_FFFF);
    LastCells(0x3_FFFF);
    LastCells(0x4_1FFF);
    CellIs(ATMEL_BUFFERED, 511, 263);
    CellIs(ATMEL_BUFFERED, 1023, 263);
  }

  /** A size taken from shared memory, which counts 4 kB units below 16 MB, is one
      that the results apply to as well, with all the cells that NVM_ADDR can
      address; but on the flash with 264-byte pages, which leaves a gap behind each
      page, only up to 33/64 of them. */
  lemma SharedSizeOk(size: nat)
    requires size % 0x1000 == 0 && size <= 0xFF_F000
    ensures DeviceOk(EEPROM, size, 0x100_0000) && DeviceOk(NON_BUFFERED, size, 0x100_0000)
    ensures DeviceOk(FLASH_5709, size, 0x100_0000)
    ensures DeviceOk(ATMEL_BUFFERED, size, 0x100_0000) <==> size <= 0x84_0000
  {
    hide Cell, Pow2;
    Powers();
    Multiple(size);
    if size > 0 { LastCells(size - 1); }
  }

  lemma Multiple(size: nat)
    requires size % 0x1000 == 0
    ensures Dword(size) && PageAligned(NON_BUFFERED, size)
  {
    var k := size / 0x1000;
    assert size == 256 * (16 * k) == 4 * (1024 * k);
  }

  lemma LastCells(x: nat)
    ensures Cell(EEPROM, x) == Cell(NON_BUFFERED, x) == Cell(FLASH_5709, x) == x
    ensures Cell(ATMEL_BUFFERED, x) < 0x100_0000 <==> x < 0x84_0000
  {
    hide Pow2;
    Powers();
    CellIs(EEPROM, x / 4, x % 4);
    CellIs(ATMEL_BUFFERED, x / 264, x % 264);
    Gap(x / 264, x % 264, x);
  }

  lemma Gap(p: nat, r: nat, x: nat)
    requires x == p * 264 + r && r < 264
    ensures p * 512 + r < 0x100_0000 <==> x < 0x84_0000
  {
  }

  lemma DeviceIsSmall(f: FlashSpec, size: nat, phys: nat)
    requires DeviceOk(f, size, phys)
    ensures phys <= 0x100_0000 && 4 <= f.pageSize
  {
  }

  lemma CellOf(f: FlashSpec, size: nat, phys: nat, i: nat)
    requires DeviceOk(f, size, phys) && i < size
    ensures Translate(f, i) < phys
  {
    hide Translate, Cell;
    TranslateIsCell(f, size - 1);
    if i < size - 1 { TranslateInjective(f, i, size - 1); }
  }

  lemma DwordCells(f: FlashSpec, size: nat, phys: nat, offset: nat)
    requires DeviceOk(f, size, phys) && Dword(offset) && offset + 4 <= size
    ensures Translate(f, offset) + 4 <= phys
  {
    hide Translate;
    TranslateDword(f, offset, 3);
    CellOf(f, size, phys, offset + 3);
  }

  /** Physical dwords are read, and replaced, without touching any other logical
      byte: translated addresses do not collide. */
  lemma LogicalDword(f: FlashSpec, size: nat, phys: seq<Byte>, offset: nat)
    requires DeviceOk(f, size, |phys|) && Dword(offset) && offset + 4 <= size
    ensures Translate(f, offset) + 4 <= |phys|
    ensures Logical(f, size, phys)[offset..offset + 4] == phys[Translate(f, offset)..Translate(f, offset) + 4]
  {
    hide Translate, Cell, Logical;
    DwordCells(f, size, |phys|, offset);
    var v, a := Logical(f, size, phys), Translate(f, offset);
    forall i | offset <= i < offset + 4 ensures v[i] == phys[a + (i - offset)] {
      TranslateDword(f, offset, i - offset);
      LogicalByte(f, size, phys, i);
    }
    var l, r := v[offset..offset + 4], phys[a..a + 4];
    assert forall k :: 0 <= k < 4 ==> l[k] == v[offset + k] == phys[a + k] == r[k];
  }

  lemma LogicalOverlay(f: FlashSpec, size: nat, phys: seq<Byte>, offset: nat, w: seq<Byte>)
    requires DeviceOk(f, size, |phys|) && Dword(offset) && offset + 4 <= size && |w| == 4
    requires Translate(f, offset) + 4 <= |phys|
    ensures Logical(f, size, Overlay(phys, Translate(f, offset), w)) == Overlay(Logical(f, size, phys), offset, w)
  {
    hide Overlay, Logical;
    var a := Translate(f, offset);
    var v, v' := Overlay(Logical(f, size, phys), offset, w), Logical(f, size, Overlay(phys, a, w));
    OverlayAt(phys, a, w);
    OverlayAt(Logical(f, size, phys), offset, w);
    forall i | 0 <= i < size ensures v'[i] == v[i] {
      OverlayCell(f, size, |phys|, offset, i);
      LogicalByte(f, size, phys, i);
      LogicalByte(f, size, Overlay(phys, a, w), i);
    }
  }

  lemma OverlayCell(f: FlashSpec, size: nat, phys: nat, offset: nat, i: nat)
    requires DeviceOk(f, size, phys) && Dword(offset) && offset + 4 <= size && i < size
    ensures Translate(f, i) < phys
    ensures if offset <= i < offset + 4 then Translate(f, i) == Translate(f, offset) + (i - offset)
            else Translate(f, i) < Translate(f, offset) || Translate(f, i) >= Translate(f, offset) + 4
  {
    hide Translate;
    CellOf(f, size, phys, i);
    if i < offset {
      TranslateInjective(f, i, offset);
    } else if i < offset + 4 {
      TranslateDword(f, offset, i - offset);
    } else {
      TranslateDword(f, offset, 3);
      TranslateInjective(f, offset + 3, i);
    }
  }

  /** Erasing acts on a whole untranslated page. */
  lemma LogicalErase(f: FlashSpec, size: nat, phys: seq<Byte>, page: nat, ones: seq<Byte>)
    requires DeviceOk(f, size, |phys|) && !f.buffered && page + |ones| <= size
    ensures page + |ones| <= |phys|
    ensures Logical(f, size, Overlay(phys, page, ones)) == Overlay(Logical(f, size, phys), page, ones)
  {
    hide Overlay;
    var v, v' := Overlay(Logical(f, size, phys), page, ones), Logical(f, size, Overlay(phys, page, ones));
    OverlayAt(phys, page, ones);
    OverlayAt(Logical(f, size, phys), page, ones);
    forall i | 0 <= i < size ensures v'[i] == v[i] {
      assert Cell(f, i) == i;
    }
  }

  lemma ErasedCells(f: FlashSpec, size: nat, phys: seq<Byte>, page: nat, n: nat)
    requires DeviceOk(f, size, |phys|) && !f.buffered && page + n <= size && n > 0
    ensures page + n <= |phys| && page < 0x100_0000
    ensures Logical(f, size, phys)[page..page + n] == phys[page..page + n]
  {
    assert Cell(f, size - 1) == size - 1;
  }

  ghost predicate SameOutside(a: seq<Byte>, b: seq<Byte>, lo: nat, hi: nat) {
    |a| == |b| && forall i :: 0 <= i < |a| && !(lo <= i < hi) ==> b[i] == a[i]
  }

  /** What lies before and behind the range is the same. */
  lemma SameOutsideIs(a: seq<Byte>, b: seq<Byte>, lo: nat, hi: nat)
    requires lo <= hi <= |a|
    ensures SameOutside(a, b, lo, hi) <==> |b| == |a| && b[..lo] == a[..lo] && b[hi..] == a[hi..]
  {
    if |b| == |a| && b[..lo] == a[..lo] && b[hi..] == a[hi..] {
      forall i | 0 <= i < |a| && !(lo <= i < hi) ensures b[i] == a[i] {
        if i < lo {
          assert b[..lo][i] == a[..lo][i];
        } else {
          assert b[hi..][i - hi] == a[hi..][i - hi];
        }
      }
    }
  }

  // ----- Bursts and buffers -----

  function Ones(n: nat): (r: seq<Byte>)
    ensures |r| == n && forall i :: 0 <= i < n ==> r[i] == 0xFF
  {
    seq(n, _ => 0xFF)
  }

  lemma {:induction false} BurstJoin(kind: Kind, a: nat, b: nat, c: nat, first: bool, last: bool)
    requires a <= b <= c && Dword(a) && Dword(b) && Dword(c)
    ensures Burst(kind, a, b, first, last && b == c) + Burst(kind, b, c, first && a == b, last) ==
            Burst(kind, a, c, first, last)
  {
    hide Dword;
    if b < c {
      DwordStep(b, c);
      BurstJoin(kind, a, b, c - 4, first, false);
      BurstStep(kind, b, c - 4, first && a == b, last);
      BurstStep(kind, a, c - 4, first, last);
      hide Burst;
      var cmd := Cmd(kind, c - 4, first && c - 4 == a, last);
      assert Burst(kind, a, b, first, false) + (Burst(kind, b, c - 4, first && a == b, false) + [cmd]) ==
             Burst(kind, a, b, first, false) + Burst(kind, b, c - 4, first && a == b, false) + [cmd];
    }
  }

  /** The k-th command of a burst has the k-th dword; FIRST is on the first command
      and LAST on the last one only. */
  lemma {:induction false} BurstIs(kind: Kind, from: nat, n: nat, first: bool, last: bool)
    ensures var b := Burst(kind, from, from + 4 * n, first, last);
            && |b| == n
            && forall k :: 0 <= k < n ==> b[k] == Cmd(kind, from + 4 * k, first && k == 0, last && k == n - 1)
  {
    if n > 0 {
      BurstIs(kind, from, n - 1, first, false);
      BurstStep(kind, from, from + 4 * (n - 1), first, last);
    }
  }

  /** Buffered flash gets the dwords of a page in one burst of its own, from FIRST
      to LAST; on other flash the burst that FIRST opens is the read of the page. */
  lemma PageCmdsAre(f: FlashSpec, page: nat, ds: nat, n: nat)
    requires Dword(f.pageSize)
    ensures f.buffered ==>
              var b := PageCmds(f, page, ds, ds + 4 * n);
              && |b| == n
              && forall k :: 0 <= k < n ==> b[k] == Cmd(Wr, ds + 4 * k, k == 0, k == n - 1)
    ensures !f.buffered ==>
              var b, m := PageCmds(f, page, ds, ds + 4 * n), f.pageSize / 4;
              && |b| == 2 * m + 1 && b[m] == Cmd(Erase, page, false, false)
              && (forall k :: 0 <= k < m ==> b[k] == Cmd(Rd, page + 4 * k, k == 0, k == m - 1))
              && (forall k :: m < k <= 2 * m ==>
                    b[k] == Cmd(Wr, page + 4 * (k - m - 1), false, k == 2 * m))
  {
    hide Burst;
    BurstIs(Wr, ds, n, true, true);
    BurstIs(Rd, page, f.pageSize / 4, true, true);
    BurstIs(Wr, page, f.pageSize / 4, false, true);
  }

  lemma BurstStep(kind: Kind, from: nat, to: nat, first: bool, last: bool)
    requires from <= to
    ensures Burst(kind, from, to + 4, first, last) ==
            Burst(kind, from, to, first, false) + [Cmd(kind, to, first && to == from, last)]
    ensures Burst(kind, from, from, first, last) == []
    ensures Burst(kind, from, from + 4, first, last) == [Cmd(kind, from, first, last)]
  {
  }

  /** Storing the next n bytes of v extends what a buffer has of v, and leaves what
      is behind its end alone. */
  lemma ReadStep(was: seq<Byte>, v: seq<Byte>, offset: nat, pos: nat, n: nat, end: nat)
    requires pos + n <= end <= |was| && offset + pos + n <= |v| && was[..pos] == v[offset..offset + pos]
    ensures var now := Overlay(was, pos, v[offset + pos..offset + pos + n]);
            now[..pos + n] == v[offset..offset + pos + n] && now[end..] == was[end..]
  {
    var b := v[offset + pos..offset + pos + n];
    var now := Overlay(was, pos, b);
    assert now[..pos + n] == was[..pos] + b;
    assert v[offset..offset + pos + n] == v[offset..offset + pos] + b;
  }

  lemma OverlayWhole(was: seq<Byte>, w: seq<Byte>)
    requires |was| == |w|
    ensures Overlay(was, 0, w) == w
  {
  }

  lemma SliceOfSlice(v: seq<Byte>, a: nat, k: nat, from: nat, n: nat)
    requires a + k <= |v| && from + n <= k
    ensures v[a..a + k][from..from + n] == v[a + from..a + from + n]
  {
    var l, r := v[a..a + k][from..from + n], v[a + from..a + from + n];
    assert |l| == |r| && forall i :: 0 <= i < n ==> l[i] == r[i];
  }

  /** The four bytes at a, when there are four. */
  function DwordAt(v: seq<Byte>, a: int): seq<Byte> {
    if 0 <= a && a + 4 <= |v| then v[a..a + 4] else []
  }

  /** Storing part of a dword that was read into a 4-byte buffer. */
  lemma WordStep(was: seq<Byte>, buf: seq<Byte>, v: seq<Byte>, offset: nat, pos: nat, from: nat, n: nat, end: nat)
    requires |buf| == 4 && from + n <= 4 && pos + n <= end <= |was|
    requires from <= offset + pos && offset + pos - from + 4 <= |v|
    requires was[..pos] == v[offset..offset + pos] && buf == v[offset + pos - from..offset + pos - from + 4]
    ensures var now := Overlay(was, pos, buf[from..from + n]);
            now[..pos + n] == v[offset..offset + pos + n] && now[end..] == was[end..]
  {
    var a := offset + pos - from;
    SliceOfSlice(v, a, 4, from, n);
    ReadStep(was, v, offset, pos, n, end);
  }

  lemma OverlayTail(was: seq<Byte>, pos: nat, b: seq<Byte>, end: nat)
    requires pos + |b| <= end <= |was|
    ensures Overlay(was, pos, b)[end..] == was[end..]
  {
  }

  lemma SizeAligned(f: FlashSpec, size: nat, phys: nat)
    requires DeviceOk(f, size, phys)
    ensures Dword(size) && 4 <= f.pageSize <= 264 && Dword(f.pageSize) && (f.buffered || PageAligned(f, size))
  {
  }

  /** What the three write loops leave of a page whose old bytes are `saved`. */
  function WrittenBack(v: seq<Byte>, page: nat, ds: nat, de: nat, data: seq<Byte>, saved: seq<Byte>): seq<Byte>
    requires page <= ds <= de <= page + |saved| <= |v| && |data| == de - ds
  {
    Overlay(Overlay(Overlay(v, page, saved[..ds - page]), ds, data), de, saved[de - page..])
  }

  /** Rewriting an erased page around new data is the same as storing the data. */
  lemma PageRewritten(v: seq<Byte>, page: nat, pageSize: nat, ones: seq<Byte>, ds: nat, de: nat, data: seq<Byte>)
    requires page <= ds <= de <= page + pageSize <= |v| && |ones| == pageSize && |data| == de - ds
    ensures var saved := v[page..page + pageSize];
            WrittenBack(Overlay(v, page, ones), page, ds, de, data, saved) == Overlay(v, ds, data)
  {
    hide Overlay;
    var saved := v[page..page + pageSize];
    var v1 := Overlay(v, page, ones);
    var v2 := Overlay(v1, page, saved[..ds - page]);
    var v3 := Overlay(v2, ds, data);
    OverlayAt(v, page, ones);
    OverlayAt(v1, page, saved[..ds - page]);
    OverlayAt(v2, ds, data);
    OverlayAt(v3, de, saved[de - page..]);
    OverlayAt(v, ds, data);
  }

  /** Storing consecutive pieces is storing them together. */
  lemma OverlayJoin(v: seq<Byte>, at: nat, a: seq<Byte>, b: seq<Byte>)
    requires at + |a| + |b| <= |v|
    ensures Overlay(Overlay(v, at, a), at + |a|, b) == Overlay(v, at, a + b)
    ensures Overlay(v, at, []) == v
  {
  }

  lemma OverlayOwn(v: seq<Byte>, at: nat, n: nat)
    requires at + n <= |v|
    ensures Overlay(v, at, v[at..at + n]) == v
  {
  }

  lemma NextPiece(v: seq<Byte>, start: nat, buf: seq<Byte>, i: nat, j: nat)
    requires i <= j <= |buf| && start + |buf| <= |v|
    ensures Overlay(Overlay(v, start, buf[..i]), start + i, buf[i..j]) == Overlay(v, start, buf[..j])
  {
    OverlayJoin(v, start, buf[..i], buf[i..j]);
    assert buf[..i] + buf[i..j] == buf[..j];
  }

  lemma SameOutsideRefl(a: seq<Byte>)
    ensures forall lo, hi :: SameOutside(a, a, lo, hi)
  {
  }

  lemma SameOutsideWiden(a: seq<Byte>, b: seq<Byte>, c: seq<Byte>, lo: nat, hi: nat, lo': nat, hi': nat)
    requires SameOutside(a, b, lo, hi) && SameOutside(b, c, lo', hi') && lo <= lo' && hi' <= hi
    ensures SameOutside(a, c, lo, hi)
  {
  }

  lemma ProgrammedErased(f: FlashSpec, v: seq<Byte>, from: nat, b: seq<Byte>, addr: nat, to: nat, w: seq<Byte>)
    requires from + |b| == addr && addr + 4 <= to <= |v| && |w| == 4
    requires f.buffered || forall i :: from <= i < to ==> v[i] == 0xFF
    ensures Programmed(f, Overlay(v, from, b)[addr..addr + 4], w) == w
  {
    hide Programmed, Overlay;
    OverlayAt(v, from, b);
    var o := Overlay(v, from, b);
    if !f.buffered {
      var was := o[addr..addr + 4];
      forall i | 0 <= i < 4 ensures was[i] == 0xFF {
        assert was[i] == o[addr + i] == v[addr + i];
      }
    }
  }

  lemma OverlaySame(v: seq<Byte>, at: nat, b: seq<Byte>, lo: nat, hi: nat)
    requires lo <= at && at + |b| <= hi && at + |b| <= |v|
    ensures SameOutside(v, Overlay(v, at, b), lo, hi)
  {
  }

  predicate PageAligned(f: FlashSpec, addr: nat)
    requires f.pageSize > 0
  {
    addr % f.pageSize == 0
  }

  /** The page of an address lies within the device; the last page of a buffered
      flash need not. */
  predicate PageWithin(f: FlashSpec, size: nat, page: nat) {
    f.buffered || page + f.pageSize <= size
  }

  /** The page of an address. */
  function PageOf(f: FlashSpec, addr: nat): (page: nat)
    requires f.pageSize > 0
    ensures page <= addr
  {
    addr - addr % f.pageSize
  }

  lemma PageOfBounds(f: FlashSpec, addr: nat)
    requires f.pageSize > 0
    ensures PageOf(f, addr) <= addr < PageOf(f, addr) + f.pageSize && PageAligned(f, PageOf(f, addr))
  {
    var q := addr / f.pageSize;
    assert PageOf(f, addr) == q * f.pageSize;
    DivModUnique(q, 0, f.pageSize, q * f.pageSize);
  }

  /** The commands that store [ds, de) of one page: on buffered flash one burst;
      otherwise the page is read and erased, and all of it is written back, the
      writes carrying no FIRST flag because the read used it up. */
  function PageCmds(f: FlashSpec, page: nat, ds: nat, de: nat): seq<Cmd> {
    if f.buffered then Burst(Wr, ds, de, true, true)
    else Burst(Rd, page, page + f.pageSize, true, true) + [Cmd(Erase, page, false, false)] +
         Burst(Wr, page, page + f.pageSize, false, true)
  }

  /** The commands that store the aligned range [from, to), page after page. */
  function WriteCmds(f: FlashSpec, from: nat, end: nat): seq<Cmd>
    requires f.pageSize > 0
    decreases end
  {
    if end <= from then [] else
    var page := PageOf(f, end - 1);
    var ds := if page <= from then from else page;
    WriteCmds(f, from, ds) + PageCmds(f, page, ds, end)
  }

  /** The reads that complete a range to whole dwords: the first dword when the
      range begins inside one, the last when it ends inside one other than that. */
  function AlignCmds(offset: nat, n: nat): seq<Cmd> {
    (if Over(offset) != 0 then ReadCmds(Floor4(offset), 4) else []) +
    (if TailNeeded(offset, n) then ReadCmds(Floor4(offset) + AlignedLength(offset, n) - 4, 4) else [])
  }

  /** The range ends inside a dword that was not read for its beginning. */
  predicate TailNeeded(offset: nat, n: nat) {
    Over(HeadLength(offset, n)) != 0
  }

  /** The length once the range begins on a dword; a range inside a dword that it
      does not begin takes that dword, even when it is empty. */
  function HeadLength(offset: nat, n: nat): (h: nat)
    ensures h >= Over(offset) + n
  {
    if Over(offset) == 0 then n else if n + Over(offset) < 4 then 4 else n + Over(offset)
  }

  /** The length of the whole dwords that cover n bytes at offset. */
  function AlignedLength(offset: nat, n: nat): (r: nat)
    ensures r >= HeadLength(offset, n) && (TailNeeded(offset, n) ==> r >= 4)
  {
    Ceil4(HeadLength(offset, n))
  }

  /** The commands of a read of n bytes. */
  function ReadCmds(offset: nat, n: nat): seq<Cmd> {
    if n == 0 then [] else Burst(Rd, Floor4(offset), Ceil4(offset + n), true, true)
  }

  /** The whole dwords that cover data, taken from v around it. */
  ghost predicate Covers(v: seq<Byte>, offset: nat, data: seq<Byte>, start: nat, buf: seq<Byte>) {
    && Dword(start) && Dword(|buf|) && start + |buf| <= |v|
    && start <= offset && offset + |data| <= start + |buf|
    && (forall i :: 0 <= i < |buf| ==>
          buf[i] == if offset <= start + i < offset + |data| then data[start + i - offset] else v[start + i])
  }

  lemma CoversIsOverlay(v: seq<Byte>, offset: nat, data: seq<Byte>, start: nat, buf: seq<Byte>)
    requires Covers(v, offset, data, start, buf)
    ensures offset + |data| <= |v| && Overlay(v, start, buf) == Overlay(v, offset, data)
  {
    var a, b := Overlay(v, start, buf), Overlay(v, offset, data);
    hide Overlay;
    OverlayAt(v, start, buf);
    OverlayAt(v, offset, data);
    forall i | 0 <= i < |v| ensures a[i] == b[i] {
      if start <= i < start + |buf| { assert buf[i - start] == b[i]; }
    }
  }

  /** The aligned copy that bnx2_nvram_write assembles. */
  lemma CoversAssembled(v: seq<Byte>, offset: nat, data: seq<Byte>, start: nat, buf: seq<Byte>, head: bool, tail: bool)
    requires start == Floor4(offset) && Dword(|buf|) && start + |buf| <= |v|
    requires |buf| >= 4 && offset + |data| <= start + |buf|
    requires (head <==> Over(offset) != 0) && (!tail ==> |buf| == Over(offset) + |data| || (head && |buf| == 4))
    requires tail ==> offset + |data| > start + |buf| - 4
    requires forall i :: 0 <= i < |data| ==> buf[Over(offset) + i] == data[i]
    requires head ==> forall i :: 0 <= i < 4 && !(offset <= start + i < offset + |data|) ==> buf[i] == v[start + i]
    requires tail ==> forall i :: |buf| - 4 <= i < |buf| && !(offset <= start + i < offset + |data|) ==>
                                  buf[i] == v[start + i]
    ensures Covers(v, offset, data, start, buf)
  {
  }

  lemma AlignedFits(offset: nat, n: nat, size: nat)
    requires offset + n <= size && Dword(size)
    ensures var r, h := AlignedLength(offset, n), HeadLength(offset, n);
            && Floor4(offset) + r <= size && Dword(r) && (r == 0 || r == 4 || r >= 8) && h <= r < h + 4
            && (TailNeeded(offset, n) ==> h == Over(offset) + n && (Over(offset) == 0 || r >= 8))
            && (!TailNeeded(offset, n) ==> r == h)
            && (h == Over(offset) + n || (Over(offset) != 0 && r == h == 4))
  {
    hide Floor4, Ceil4, Over, Dword;
    DwordStep(Floor4(offset), size);
    var r, h := AlignedLength(offset, n), HeadLength(offset, n);
    DwordStep(0, 4);
    if r > 0 { DwordStep(0, r); DwordStep(4, r); }
    if h == Over(offset) + n {
      DwordEnd(Floor4(offset), r, offset + n, size);
    } else {
      FloorFits(offset, size);
    }
  }

  lemma EndsPlan(offset: nat, n: nat)
    ensures var h := HeadLength(offset, n);
            && (TailNeeded(offset, n) <==> Over(h) != 0)
            && AlignedLength(offset, n) == if Over(h) != 0 then h + (4 - Over(h)) else h
    ensures AlignCmds(offset, n) ==
            (if Over(offset) != 0 then ReadCmds(Floor4(offset), 4) else []) +
            (if TailNeeded(offset, n) then ReadCmds(Floor4(offset) + AlignedLength(offset, n) - 4, 4) else [])
  {
    hide ReadCmds, Over, Floor4, Ceil4, Dword, HeadLength;
  }

  lemma FloorFits(x: nat, size: nat)
    requires Dword(size) && (x < size || (x == size && Over(x) != 0))
    ensures Floor4(x) + 4 <= size
  {
    hide Floor4, Over, Dword;
    DwordStep(Floor4(x), size);
  }

  lemma WordBytes(v: seq<Byte>, start: nat, w: seq<Byte>)
    requires start + 4 <= |v| && w == v[start..start + 4]
    ensures forall i :: 0 <= i < 4 ==> w[i] == v[start + i]
  {
  }

  lemma CoversItself(v: seq<Byte>, offset: nat, data: seq<Byte>)
    requires Dword(offset) && Dword(|data|) && offset + |data| <= |v|
    ensures Covers(v, offset, data, offset, data)
  {
  }

  lemma CoversBounds(v: seq<Byte>, offset: nat, data: seq<Byte>, start: nat, buf: seq<Byte>)
    requires Covers(v, offset, data, start, buf)
    ensures Dword(start) && Dword(|buf|) && start + |buf| <= |v|
  {
  }

  lemma PageOfUnique(f: FlashSpec, page: nat, addr: nat)
    requires f.pageSize > 0 && PageAligned(f, page) && page <= addr < page + f.pageSize
    ensures PageOf(f, addr) == page
  {
    var q := page / f.pageSize;
    assert page == q * f.pageSize;
    DivModUnique(q, addr - page, f.pageSize, addr);
  }

  /** Pages begin on dwords, and a page that begins within the device ends there. */
  lemma PageFits(f: FlashSpec, size: nat, page: nat)
    requires f.pageSize > 0 && Dword(f.pageSize) && PageAligned(f, page) && page < size
    requires f.buffered || PageAligned(f, size)
    ensures Dword(page) && PageWithin(f, size, page) && PageAligned(f, page + f.pageSize)
  {
    var n, p, q := f.pageSize, page / f.pageSize, size / f.pageSize;
    hide Dword;
    MulDword(p, n);
    assert page == p * n;
    NextMultiple(p, p + 1, n);
    if !f.buffered {
      assert size == q * n;
      NextMultiple(p, q, n);
    }
    DivModUnique(p + 1, 0, n, (p + 1) * n);
  }

  lemma NextMultiple(p: nat, q: nat, n: nat)
    requires p * n < q * n
    ensures p * n + n <= q * n && (p + 1) * n == p * n + n
  {
    assert p < q by { if q <= p { MulOrder(q, p, n); } }
    MulOrder(p + 1, q, n);
  }

  /** v with these pages all ones. */
  function Blank(f: FlashSpec, v: seq<Byte>, pages: set<nat>): (r: seq<Byte>)
    requires f.pageSize > 0
    ensures |r| == |v|
  {
    seq(|v|, i requires 0 <= i < |v| => if PageOf(f, i) in pages then 0xFF else v[i])
  }

  predicate AllOnes(f: FlashSpec, v: seq<Byte>, pages: set<nat>)
    requires f.pageSize > 0
  {
    forall i: nat :: i < |v| && PageOf(f, i) in pages ==> v[i] == 0xFF
  }

  /** Nothing is lost if and only if those pages were all ones anyway. */
  lemma BlankSameIff(f: FlashSpec, v: seq<Byte>, pages: set<nat>)
    requires f.pageSize > 0
    ensures Blank(f, v, pages) == v <==> AllOnes(f, v, pages)
  {
    var b := Blank(f, v, pages);
    if b == v {
      forall i: nat | i < |v| && PageOf(f, i) in pages ensures v[i] == 0xFF {
        assert b[i] == 0xFF;
      }
    }
  }

  lemma BlankNone(f: FlashSpec, v: seq<Byte>)
    requires f.pageSize > 0
    ensures Blank(f, v, {}) == v
  {
  }

  /** A further page either receives its data or is lost. */
  lemma BlankMore(f: FlashSpec, v: seq<Byte>, pages: set<nat>, page: nat, ds: nat, b: seq<Byte>)
    requires f.pageSize > 0 && PageAligned(f, page) && page !in pages
    requires page <= ds && ds + |b| <= page + f.pageSize && ds + |b| <= |v|
    ensures Overlay(Blank(f, v, pages), ds, b) == Blank(f, Overlay(v, ds, b), pages)
    ensures page + f.pageSize <= |v| ==>
              Overlay(Blank(f, v, pages), page, Ones(f.pageSize)) == Blank(f, Overlay(v, ds, b), pages + {page})
  {
    hide Overlay, PageOf, PageAligned;
    var u, w := Blank(f, v, pages), Overlay(v, ds, b);
    OverlayAt(u, ds, b);
    OverlayAt(v, ds, b);
    var l, r := Overlay(u, ds, b), Blank(f, w, pages);
    forall i | 0 <= i < |v| ensures l[i] == r[i] {
      OnPageIff(f, page, i);
    }
    if page + f.pageSize <= |v| {
      var l2, r2 := Overlay(u, page, Ones(f.pageSize)), Blank(f, w, pages + {page});
      OverlayAt(u, page, Ones(f.pageSize));
      forall i | 0 <= i < |v| ensures l2[i] == r2[i] {
        OnPageIff(f, page, i);
      }
    }
  }

  lemma PieceStored(f: FlashSpec, v: seq<Byte>, lost: set<nat>, page: nat, start: nat, buf: seq<Byte>, i: nat, j: nat)
    requires f.pageSize > 0 && PageAligned(f, page) && page !in lost
    requires i <= j <= |buf| && start + |buf| <= |v| && page <= start + i && start + j <= page + f.pageSize
    ensures var was := Blank(f, Overlay(v, start, buf[..i]), lost);
            && Overlay(was, start + i, buf[i..j]) == Blank(f, Overlay(v, start, buf[..j]), lost)
            && (page + f.pageSize <= |v| ==>
                  Overlay(was, page, Ones(f.pageSize)) == Blank(f, Overlay(v, start, buf[..j]), lost + {page}))
  {
    hide Overlay, Blank, PageAligned;
    NextPiece(v, start, buf, i, j);
    BlankMore(f, Overlay(v, start, buf[..i]), lost, page, start + i, buf[i..j]);
  }

  lemma OnPageIff(f: FlashSpec, page: nat, i: nat)
    requires f.pageSize > 0 && PageAligned(f, page)
    ensures PageOf(f, i) == page <==> page <= i < page + f.pageSize
  {
    PageOfBounds(f, i);
    if page <= i < page + f.pageSize { PageOfUnique(f, page, i); }
  }

  /** The end of the last page that [start, end) reaches into. */
  function PagesEnd(f: FlashSpec, start: nat, end: nat): nat
    requires f.pageSize > 0
  {
    if start < end then PageOf(f, end - 1) + f.pageSize else PageOf(f, start)
  }

  lemma WithinPages(f: FlashSpec, start: nat, cur: nat, end: nat)
    requires f.pageSize > 0 && start <= cur < end && (cur == start || PageAligned(f, cur))
    ensures PageOf(f, start) <= PageOf(f, cur) && PageOf(f, cur) + f.pageSize <= PagesEnd(f, start, end)
    ensures PageOf(f, start) <= start && end <= PagesEnd(f, start, end)
  {
    hide PageOf, PageAligned;
    var p, q := PageOf(f, cur), PageOf(f, end - 1);
    PageOfBounds(f, cur);
    PageOfBounds(f, end - 1);
    PageOfBounds(f, start);
    if cur > start { PageOfUnique(f, cur, cur); }
    if q < p { PagesApart(f, q, p); }
  }

  lemma PagesApart(f: FlashSpec, q: nat, p: nat)
    requires f.pageSize > 0 && PageAligned(f, q) && PageAligned(f, p) && q < p
    ensures q + f.pageSize <= p
  {
    var n := f.pageSize;
    assert q == q / n * n && p == p / n * n;
    NextMultiple(q / n, p / n, n);
  }

  lemma WriteCmdsStep(f: FlashSpec, start: nat, page: nat, de: nat)
    requires f.pageSize > 0 && start < de && PageOf(f, de - 1) == page
    ensures var ds := if page <= start then start else page;
            WriteCmds(f, start, de) == WriteCmds(f, start, ds) + PageCmds(f, page, ds, de)
  {
  }

  /** One round of the page loop, where cur is the next byte to write of the range
      [start, end): its page lies within the device, and what the page receives is
      the next piece of the range. */
  lemma PageSplit(f: FlashSpec, size: nat, start: nat, cur: nat, end: nat)
    requires 4 <= f.pageSize && Dword(f.pageSize) && (f.buffered || PageAligned(f, size))
    requires Dword(cur) && Dword(end) && start <= cur < end <= size
    requires cur == start || PageAligned(f, cur)
    ensures var page := PageOf(f, cur);
            var ds := if cur == start then start else page;
            var de := if page + f.pageSize > end then end else page + f.pageSize;
            && Dword(page) && PageAligned(f, page) && page <= ds == cur < de <= page + f.pageSize
            && PageWithin(f, size, page) && de <= size && Dword(de) && (de < end ==> PageAligned(f, de))
            && PageOf(f, de - 1) == page
            && WriteCmds(f, start, de) == WriteCmds(f, start, ds) + PageCmds(f, page, ds, de)
  {
    hide PageOf, PageCmds, WriteCmds, PageAligned, Dword;
    DwordStep(cur, end);
    PageOfBounds(f, cur);
    if cur > start { PageOfUnique(f, cur, cur); }
    var page := PageOf(f, cur);
    PageFits(f, size, page);
    DwordStep(page, f.pageSize);
    var de := if page + f.pageSize > end then end else page + f.pageSize;
    PageOfUnique(f, page, de - 1);
    WriteCmdsStep(f, start, page, de);
  }
}
