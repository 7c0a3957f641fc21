/** bnx2_nvram_read, bnx2_nvram_write and the primitives below them, against the
    flash of module Nvram. */
module NvramAccess {
  import opened Nvram

  const EBUSY := -16
  const ENOMEM := -12

  /** memcpy. */
  method Memcpy(dst: array<Byte>, to: nat, src: array<Byte>, from: nat, n: nat)
    requires dst != src && to + n <= dst.Length && from + n <= src.Length
    modifies dst
    ensures dst[..] == Overlay(old(dst[..]), to, src[from..from + n])
  {
    forall i | 0 <= i < n {
      dst[to + i] := src[from + i];
    }
    OverlayAt(old(dst[..]), to, src[from..from + n]);
    assert dst[..] == Overlay(old(dst[..]), to, src[from..from + n]);
  }

  /** What a write-enable command comes to: a command that times out may have set the
      latch or not. */
  datatype Enabling = Done | TimedOut(taken: bool)

  class Device {
    const flash: FlashSpec
    const size: nat
    /** What the n-th wait for the chip, or request for memory, comes to, and the n-th
        write-enable command. */
    const answers: nat -> bool
    const enabling: nat -> Enabling
    /** The flash cells. */
    var phys: seq<Byte>
    /** The software arbitration for the NVRAM interface is held, which every access
        needs. */
    var locked: bool
    /** The write-enable latch of a flash that is not buffered. Without it, erasing
        and programming commands complete without effect; an erase and the last
        write of a burst clear it. */
    var latch: bool
    /** How many of each there have been. */
    var waits: nat
    var enables: nat
    ghost var log: seq<Cmd>

    constructor (flash: FlashSpec, phys: seq<Byte>, size: nat, answers: nat -> bool, enabling: nat -> Enabling)
      requires DeviceOk(flash, size, |phys|)
      ensures Valid() && View() == Logical(flash, size, phys) && !locked && !latch && waits == enables == 0 && log == []
      ensures this.flash == flash && this.size == size && this.answers == answers && this.enabling == enabling
    {
      this.flash, this.phys, this.size, this.answers, this.enabling := flash, phys, size, answers, enabling;
      locked, latch, waits, enables, log := false, false, 0, 0, [];
    }

    /** No wait from number a up to b has failed. */
    ghost predicate Answered(a: nat, b: nat) {
      forall k: nat :: a <= k < b ==> answers(k)
    }

    ghost predicate Valid()
      reads `phys
    {
      DeviceOk(flash, size, |phys|)
    }

    ghost function View(): seq<Byte>
      reads `phys
      requires Valid()
    {
      Logical(flash, size, phys)
    }

    lemma AnsweredJoin(a: nat, b: nat, c: nat)
      requires a <= b <= c
      ensures Answered(a, c) <==> Answered(a, b) && Answered(b, c)
      ensures Answered(a, a)
    {
    }

    /** bnx2_acquire_nvram_lock: the arbiter may not answer in time. */
    method AcquireLock() returns (rc: int)
      modifies this`locked, this`waits
      ensures waits == old(waits) + 1 && (rc == 0 <==> answers(old(waits)))
      ensures locked == (rc == 0 || old(locked))
    {
      var granted := Wait();
      if !granted { return EBUSY; }
      locked := true;
      rc := 0;
    }

    /** A polling loop, or kmalloc. */
    method Wait() returns (ready: bool)
      modifies this`waits
      ensures waits == old(waits) + 1 && ready == answers(old(waits))
    {
      ready := answers(waits);
      waits := waits + 1;
    }

    /** bnx2_release_nvram_lock, whose result no caller here looks at. */
    method ReleaseLock()
      modifies this`locked
      ensures !locked
    {
      locked := false;
    }

    /** The n-th write-enable command leaves a flash that needs it without. */
    ghost predicate Off(n: nat) {
      !flash.buffered && enabling(n) == TimedOut(false)
    }

    ghost predicate Enabled()
      reads `latch
    {
      flash.buffered || latch
    }

    /** bnx2_enable_nvram_write: a write-enable command, which buffered flash does
        not need. */
    method EnableWrite() returns (rc: int)
      requires locked
      modifies this`latch, this`enables
      ensures flash.buffered ==> rc == 0 && latch == old(latch) && enables == old(enables)
      ensures !flash.buffered ==> enables == old(enables) + 1 && (rc == 0 <==> enabling(old(enables)).Done?)
      ensures !flash.buffered ==> latch == (old(latch) || enabling(old(enables)) != TimedOut(false))
    {
      rc := 0;
      if !flash.buffered {
        var outcome := enabling(enables);
        enables := enables + 1;
        latch := latch || outcome != TimedOut(false);
        if outcome.TimedOut? {
          rc := EBUSY;
        }
      }
    }

    /** bnx2_nvram_read_dword into dst at pos. */
    method ReadDword(offset: nat, dst: array<Byte>, pos: nat, first: bool, last: bool) returns (rc: int)
      requires Valid() && locked && Dword(offset) && offset + 4 <= size && pos + 4 <= dst.Length
      modifies this`waits, this`log, dst
      ensures waits == old(waits) + 1 && (rc == 0 <==> answers(old(waits)))
      ensures dst[..] == if rc == 0 then Overlay(old(dst[..]), pos, View()[offset..offset + 4]) else old(dst[..])
      ensures log == old(log) + [Cmd(Rd, offset, first, last)]
    {
      hide Translate, Overlay, Logical, DeviceOk, Dword;
      DeviceIsSmall(flash, size, |phys|);
      LogicalDword(flash, size, phys, offset);
      var addr := Translate(flash, offset) % 0x100_0000;
      log := log + [Cmd(Rd, offset, first, last)];
      var ready := Wait();
      if !ready { return EBUSY; }
      var v := phys[addr..addr + 4];
      forall i | 0 <= i < 4 {
        dst[pos + i] := v[i];
      }
      OverlayAt(old(dst[..]), pos, v);
      assert dst[..] == Overlay(old(dst[..]), pos, v);
      rc := 0;
    }

    /** The same into a local four-byte buffer. */
    method ReadWord(offset: nat, first: bool, last: bool) returns (rc: int, buf: array<Byte>)
      requires Valid() && locked && Dword(offset) && offset + 4 <= size
      modifies this`waits, this`log
      ensures waits == old(waits) + 1 && (rc == 0 <==> answers(old(waits)))
      ensures fresh(buf) && buf.Length == 4
      ensures rc == 0 ==> buf[..] == View()[offset..offset + 4]
      ensures log == old(log) + [Cmd(Rd, offset, first, last)]
    {
      hide Logical, DeviceOk, PageAligned, Translate, Dword, Over, Floor4, Ceil4, Overlay;
      buf := new Byte[4];
      OverlayWhole(buf[..], View()[offset..offset + 4]);
      rc := ReadDword(offset, buf, 0, first, last);
    }

    /** bnx2_nvram_write_dword: a command that times out may leave anything in the
        four bytes. */
    method WriteDword(offset: nat, w: seq<Byte>, first: bool, last: bool) returns (rc: int)
      requires Valid() && locked && Dword(offset) && offset + 4 <= size && |w| == 4
      modifies this`waits, this`log, this`phys, this`latch
      ensures waits == old(waits) + 1 && (rc == 0 <==> answers(old(waits)))
      ensures Valid() && log == old(log) + [Cmd(Wr, offset, first, last)]
      ensures rc == 0 ==>
                View() == if old(Enabled())
                          then Overlay(old(View()), offset, Programmed(flash, old(View())[offset..offset + 4], w))
                          else old(View())
      ensures rc == 0 ==> latch == (old(latch) && !last)
      ensures SameOutside(old(View()), View(), offset, offset + 4)
    {
      hide Translate, Overlay, Logical, DeviceOk, Programmed, SameOutside, Dword;
      DeviceIsSmall(flash, size, |phys|);
      LogicalDword(flash, size, phys, offset);
      var addr := Translate(flash, offset) % 0x100_0000;
      var was := phys[addr..addr + 4];
      var left := if flash.buffered || latch then Programmed(flash, was, w) else was;
      log := log + [Cmd(Wr, offset, first, last)];
      rc := 0;
      latch := latch && !last;
      OverlayOwn(View(), offset, 4);
      var ready := Wait();
      if !ready {
        var garbage: seq<Byte> := *;
        if |garbage| == 4 { left := garbage; }
        rc := EBUSY;
      }
      LogicalOverlay(flash, size, phys, offset, left);
      OverlaySame(View(), offset, left, offset, offset + 4);
      phys := Overlay(phys, addr, left);
    }

    /** bnx2_nvram_erase_page: nothing to do on buffered flash; otherwise all bits
        of the page are set, unless the command times out. */
    method ErasePage(page: nat) returns (rc: int)
      requires Valid() && locked && PageAligned(flash, page) && (flash.buffered || page + flash.pageSize <= size)
      modifies this`waits, this`log, this`phys, this`latch
      ensures flash.buffered ==> waits == old(waits)
      ensures !flash.buffered ==> waits == old(waits) + 1 && (rc == 0 <==> answers(old(waits)))
      ensures Valid()
      ensures flash.buffered ==> rc == 0 && View() == old(View()) && log == old(log)
      ensures !flash.buffered ==> log == old(log) + [Cmd(Erase, page, false, false)]
      ensures !flash.buffered && rc == 0 ==>
                !latch && View() == if old(latch) then Overlay(old(View()), page, Ones(flash.pageSize)) else old(View())
      ensures SameOutside(old(View()), View(), page, page + flash.pageSize)
    {
      hide Translate, Overlay, Logical, DeviceOk, Ones, SameOutside, PageAligned, Pow2;
      DeviceIsSmall(flash, size, |phys|);
      if flash.buffered {
        SameOutsideRefl(View());
        return 0;
      }
      log := log + [Cmd(Erase, page, false, false)];
      rc := 0;
      ErasedCells(flash, size, phys, page, flash.pageSize);
      var left := if latch then Ones(flash.pageSize) else phys[page..page + flash.pageSize];
      latch := false;
      OverlayOwn(View(), page, flash.pageSize);
      var ready := Wait();
      if !ready {
        var garbage: seq<Byte> := *;
        if |garbage| == flash.pageSize { left := garbage; }
        rc := EBUSY;
      }
      LogicalErase(flash, size, phys, page, left);
      OverlaySame(View(), page, left, page, page + flash.pageSize);
      phys := Overlay(phys, page % 0x100_0000, left);
    }

    /** bnx2_nvram_read. When it returns 0, the buffer has exactly the bytes asked
        for and the flash has seen one burst of consecutive dwords; in no case is
        anything stored behind them. */
    method Read(offset: nat, retBuf: array<Byte>, bufSize: nat) returns (rc: int)
      requires Valid() && offset + bufSize <= size && bufSize <= retBuf.Length && !locked
      modifies this`waits, this`locked, this`log, retBuf
      ensures waits >= old(waits) && (rc == 0 <==> Answered(old(waits), waits))
      ensures rc == 0 ==> retBuf[..bufSize] == View()[offset..offset + bufSize]
      ensures retBuf[bufSize..] == old(retBuf[bufSize..])
      ensures rc == 0 ==> log == old(log) + ReadCmds(offset, bufSize)
      ensures rc == 0 ==> !locked
    {
      hide Logical, Overlay, DeviceOk, PageAligned, Translate, Dword, Over, Floor4, Ceil4, Burst;
      SizeAligned(flash, size, |phys|);
      rc := 0;
      if bufSize == 0 {
        assert retBuf[..0] == View()[offset..offset];
        return;
      }
      rc := AcquireLock();
      if rc != 0 {
        return;
      }
      var len32, offset32, pos := bufSize, offset, 0;
      var isFirst := true;                     // cmd_flags is still 0
      FloorFits(offset, size);
      DwordStep(Floor4(offset), size);
      if Over(offset32) != 0 {
        offset32 := Floor4(offset);
        var preLen := 4 - Over(offset);
        if preLen >= len32 {
          preLen := len32;
        }
        rc := ReadFirst(offset, retBuf, bufSize, preLen);
        if rc != 0 {
          return;
        }
        isFirst := false;
        offset32, pos, len32 := offset32 + 4, preLen, len32 - preLen;
      }
      rc := ReadTail(offset, offset32, retBuf, bufSize, pos, len32, isFirst);
      ReadFraming(old(log), offset, bufSize);
    }

    /** A first dword that the range begins inside of. */
    method ReadFirst(offset: nat, retBuf: array<Byte>, bufSize: nat, preLen: nat) returns (rc: int)
      requires Valid() && locked && offset + bufSize <= size && bufSize <= retBuf.Length
      requires Over(offset) + preLen <= 4 && preLen <= bufSize && offset < size && Dword(size)
      modifies this`waits, this`log, retBuf
      ensures waits == old(waits) + 1 && (rc == 0 <==> answers(old(waits)))
      ensures rc == 0 ==> retBuf[..preLen] == View()[offset..offset + preLen]
      ensures retBuf[bufSize..] == old(retBuf[bufSize..])
      ensures log == old(log) + [Cmd(Rd, Floor4(offset), true, preLen == bufSize)]
    {
      hide Logical, Overlay, DeviceOk, PageAligned, Translate, Dword, Over, Floor4, Ceil4;
      FloorFits(offset, size);
      var buf;
      rc, buf := ReadWord(Floor4(offset), true, preLen == bufSize);
      if rc != 0 {
        return;
      }
      WordStep(retBuf[..], buf[..], View(), offset, 0, Over(offset), preLen, bufSize);
      Memcpy(retBuf, 0, buf, Over(offset), preLen);
    }

    /** The rest of bnx2_nvram_read, from the rounding of the length on. */
    method ReadTail(offset: nat, start: nat, retBuf: array<Byte>, bufSize: nat, have: nat, need: nat, isFirst: bool)
      returns (rc: int)
      requires Valid() && locked && offset + bufSize <= size && bufSize <= retBuf.Length
      requires have + need == bufSize && Dword(start) && (need > 0 ==> start == offset + have)
      requires retBuf[..have] == View()[offset..offset + have]
      modifies this`waits, this`locked, this`log, retBuf
      ensures waits >= old(waits) && (rc == 0 <==> Answered(old(waits), waits))
      ensures rc == 0 ==> retBuf[..bufSize] == View()[offset..offset + bufSize]
      ensures retBuf[bufSize..] == old(retBuf[bufSize..])
      ensures rc == 0 ==> log == old(log) + Burst(Rd, start, start + Ceil4(need), isFirst, true)
      ensures rc == 0 ==> !locked
    {
      hide Logical, Overlay, DeviceOk, PageAligned, Translate, Dword, Over, Floor4, Ceil4, Burst;
      SizeAligned(flash, size, |phys|);
      rc := 0;
      var len32, extra := need, 0;
      Rounding(start, need);
      if Over(len32) != 0 {
        extra := 4 - Over(len32);
        len32 := Floor4(len32 + 4);
      }
      BurstStep(Rd, start, start, isFirst, true);
      assert log + [] == log;
      if len32 == 4 {
        rc := ReadLast(offset, start, retBuf, bufSize, have, extra, isFirst);
      } else if len32 > 0 {
        var offset32, pos;
        DwordEnd(start, len32, offset + bufSize, size);
        rc, offset32, pos := ReadMiddle(offset, start, retBuf, bufSize, have, len32, isFirst);
        if rc != 0 {
          return;
        }
        BurstStep(Rd, start, offset32, isFirst, true);
        AppendAssoc(old(log), Burst(Rd, start, offset32, isFirst, false), [Cmd(Rd, offset32, false, true)]);
        rc := ReadLast(offset, offset32, retBuf, bufSize, pos, extra, false);
      }
      ReleaseLock();
    }

    /** The last dword goes through a local buffer, and only the bytes asked for
        are stored. */
    method ReadLast(offset: nat, offset32: nat, retBuf: array<Byte>, bufSize: nat, pos: nat,
                    extra: nat, first: bool) returns (rc: int)
      requires Valid() && locked && offset + bufSize <= size && bufSize <= retBuf.Length
      requires offset32 == offset + pos && Dword(offset32) && extra < 4 && bufSize == pos + 4 - extra
      requires retBuf[..pos] == View()[offset..offset + pos]
      modifies this`waits, this`log, retBuf
      ensures waits == old(waits) + 1 && (rc == 0 <==> answers(old(waits)))
      ensures rc == 0 ==> retBuf[..bufSize] == View()[offset..offset + bufSize]
      ensures retBuf[bufSize..] == old(retBuf[bufSize..])
      ensures log == old(log) + [Cmd(Rd, offset32, first, true)]
    {
      hide Logical, Overlay, DeviceOk, PageAligned, Translate, Dword, Over, Floor4, Ceil4;
      SizeAligned(flash, size, |phys|);
      DwordStep(offset32, size);
      var buf;
      rc, buf := ReadWord(offset32, first, true);
      OverlayTail(retBuf[..], pos, buf[0..4 - extra], bufSize);
      if rc == 0 {
        WordStep(retBuf[..], buf[..], View(), offset, pos, 0, 4 - extra, bufSize);
      }
      Memcpy(retBuf, pos, buf, 0, 4 - extra);
    }

    /** A dword that goes straight into the caller's buffer. */
    method ReadDirect(offset: nat, offset32: nat, retBuf: array<Byte>, bufSize: nat, pos: nat,
                      first: bool) returns (rc: int)
      requires Valid() && locked && offset32 == offset + pos && Dword(offset32) && offset32 + 4 <= size
      requires pos + 4 <= bufSize <= retBuf.Length
      requires retBuf[..pos] == View()[offset..offset + pos]
      modifies this`waits, this`log, retBuf
      ensures waits == old(waits) + 1 && (rc == 0 <==> answers(old(waits)))
      ensures rc == 0 ==> retBuf[..pos + 4] == View()[offset..offset + pos + 4]
      ensures retBuf[bufSize..] == old(retBuf[bufSize..])
      ensures log == old(log) + [Cmd(Rd, offset32, first, false)]
    {
      hide Logical, Overlay, DeviceOk, PageAligned, Translate, Dword, Over, Floor4, Ceil4;
      ReadStep(retBuf[..], View(), offset, pos, 4, bufSize);
      rc := ReadDword(offset32, retBuf, pos, first, false);
    }

    /** All dwords but the last. */
    method ReadMiddle(offset: nat, start: nat, retBuf: array<Byte>, bufSize: nat, have: nat, need: nat, isFirst: bool)
      returns (rc: int, offset32: nat, pos: nat)
      requires Valid() && locked && offset + bufSize <= size && bufSize <= retBuf.Length
      requires start == offset + have && Dword(start) && Dword(need) && need > 4
      requires bufSize <= have + need < bufSize + 4 && start + need <= size
      requires retBuf[..have] == View()[offset..offset + have]
      modifies this`waits, this`log, retBuf
      ensures waits >= old(waits) && (rc == 0 <==> Answered(old(waits), waits))
      ensures retBuf[bufSize..] == old(retBuf[bufSize..])
      ensures rc == 0 ==>
        && offset32 == offset + pos == start + need - 4 && Dword(offset32)
        && retBuf[..pos] == View()[offset..offset + pos]
        && log == old(log) + Burst(Rd, start, offset32, isFirst, false)
    {
      hide Logical, Overlay, DeviceOk, PageAligned, Translate, Dword, Over, Floor4, Ceil4, Burst;
      ghost var log0 := log;
      var len32 := need;
      DwordStep(start, need);
      BurstStep(Rd, start, start, isFirst, false);
      rc := ReadDirect(offset, start, retBuf, bufSize, have, isFirst);
      offset32, pos, len32 := start + 4, have + 4, len32 - 4;
      while len32 > 4 && rc == 0
        invariant Dword(len32) && Dword(offset32) && 4 <= len32 <= need - 4
        invariant offset32 == offset + pos == start + need - len32
        invariant waits >= old(waits) && (rc == 0 <==> Answered(old(waits), waits))
        invariant rc == 0 ==> retBuf[..pos] == View()[offset..offset + pos]
        invariant rc == 0 ==> log == log0 + Burst(Rd, start, offset32, isFirst, false)
        invariant retBuf[bufSize..] == old(retBuf[bufSize..])
      {
        DwordStep(offset32, len32);
        BurstStep(Rd, start, offset32, isFirst, false);
        AppendAssoc(log0, Burst(Rd, start, offset32, isFirst, false), [Cmd(Rd, offset32, false, false)]);
        rc := ReadDirect(offset, offset32, retBuf, bufSize, pos, false);
        offset32, pos, len32 := offset32 + 4, pos + 4, len32 - 4;
      }
    }

    /** One of the loops that write [from, to) dword by dword, taken from src; the
        dword at `lastAt` closes the burst. */
    method WriteRun(from: nat, to: nat, src: seq<Byte>, first: bool, lastAt: int) returns (rc: int)
      requires Valid() && locked && Dword(from) && Dword(to) && from <= to <= size && |src| == to - from
      requires to - 4 <= lastAt
      requires flash.buffered || forall i :: from <= i < to ==> View()[i] == 0xFF
      modifies this`waits, this`log, this`phys, this`latch
      ensures waits >= old(waits) && (rc == 0 <==> Answered(old(waits), waits))
      ensures Valid()
      ensures rc == 0 ==> View() == if old(Enabled()) then Overlay(old(View()), from, src) else old(View())
      ensures rc == 0 ==> latch == (old(latch) && (from == to || lastAt != to - 4))
      ensures rc == 0 ==> log == old(log) + Burst(Wr, from, to, first, lastAt == to - 4)
      ensures SameOutside(old(View()), View(), from, to)
    {
      hide Logical, DeviceOk, PageAligned, Translate, Dword, Over, Floor4, Ceil4, Burst, Overlay, Programmed,
        SameOutside;
      ghost var v := View();
      var addr := from;
      rc := 0;
      DwordStep(from, to);
      BurstStep(Wr, from, from, first, false);
      OverlayJoin(v, from, [], []);
      assert src[..0] == [];
      while addr < to
        invariant from <= addr <= to && Dword(addr) && rc == 0 && waits >= old(waits) && Answered(old(waits), waits)
        invariant Valid() && View() == if old(Enabled()) then Overlay(v, from, src[..addr - from]) else v
        invariant latch == (old(latch) && (addr == from || addr < to || lastAt != to - 4))
        invariant log == old(log) + Burst(Wr, from, addr, first, addr == to && addr > from && lastAt == to - 4)
      {
        DwordStep(addr, to);
        var w := src[addr - from..addr - from + 4];
        BurstStep(Wr, from, addr, first, addr == lastAt);
        OverlayJoin(v, from, src[..addr - from], w);
        assert src[..addr - from] + w == src[..addr + 4 - from];
        OverlaySame(v, from, src[..addr - from], from, to);
        SameOutsideRefl(v);
        ProgrammedErased(flash, v, from, src[..addr - from], addr, to, w);
        ghost var before := View();
        rc := WriteDword(addr, w, first && addr == from, addr == lastAt);
        SameOutsideWiden(v, before, View(), from, to, addr, addr + 4);
        if rc != 0 {
          return;
        }
        addr := addr + 4;
      }
      assert src[..to - from] == src;
      BurstStep(Wr, from, from, first, lastAt == to - 4);
      OverlaySame(v, from, src, from, to);
      SameOutsideRefl(v);
    }

    /** The page-read loop of bnx2_nvram_write. */
    method ReadPage(page: nat, flashBuffer: array<Byte>) returns (rc: int)
      requires Valid() && locked && Dword(page) && page + flash.pageSize <= size && flashBuffer.Length == 264
      modifies this`waits, this`log, flashBuffer
      ensures waits >= old(waits) && (rc == 0 <==> Answered(old(waits), waits))
      ensures rc == 0 ==> flashBuffer[..flash.pageSize] == View()[page..page + flash.pageSize]
      ensures rc == 0 ==> log == old(log) + Burst(Rd, page, page + flash.pageSize, true, true)
    {
      hide Logical, DeviceOk, PageAligned, Translate, Dword, Over, Floor4, Ceil4, Burst, Overlay;
      SizeAligned(flash, size, |phys|);
      ghost var v, log0 := View(), log;
      var pageSize := flash.pageSize;
      var j := 0;
      rc := 0;
      DwordStep(0, page);
      BurstStep(Rd, page, page, true, false);
      assert log0 + [] == log0 && flashBuffer[..0] == v[page..page];
      while j < pageSize
        invariant 0 <= j <= pageSize && Dword(j) && rc == 0 && waits >= old(waits) && Answered(old(waits), waits)
        invariant flashBuffer[..j] == v[page..page + j]
        invariant log == log0 + Burst(Rd, page, page + j, true, j == pageSize)
      {
        DwordStep(page, j);
        DwordStep(j, pageSize);
        BurstStep(Rd, page, page + j, true, j == pageSize - 4);
        ReadStep(flashBuffer[..], v, page, j, 4, 264);
        AppendAssoc(log0, Burst(Rd, page, page + j, true, false), [Cmd(Rd, page + j, j == 0, j == pageSize - 4)]);
        rc := ReadDword(page + j, flashBuffer, j, j == 0, j == pageSize - 4);
        if rc != 0 {
          return;
        }
        j := j + 4;
      }
    }

    /** The body of the page loop of bnx2_nvram_write, between taking the lock and
        releasing it: [ds, de) of the page receives data, or, when the flash was not
        enabled again after erasing the page, all of it is lost. */
    method WritePage(page: nat, ds: nat, de: nat, data: seq<Byte>, flashBuffer: array<Byte>) returns (rc: int)
      requires Valid() && locked && Dword(page) && PageAligned(flash, page) && PageWithin(flash, size, page)
      requires page <= ds < de <= page + flash.pageSize && de <= size && Dword(ds) && Dword(de)
      requires |data| == de - ds && flashBuffer.Length == 264
      modifies this`waits, this`log, this`phys, this`latch, this`enables, flashBuffer
      ensures Valid()
      ensures waits >= old(waits)
      ensures rc == 0 <==> Answered(old(waits), waits) && (flash.buffered || enabling(old(enables)).Done?)
      ensures rc == 0 ==> enables == old(enables) + if flash.buffered then 0 else 2
      ensures rc == 0 ==> Stored(flash, old(View()), View(), page, ds, data, Off(old(enables) + 1))
      ensures rc == 0 ==> log == old(log) + PageCmds(flash, page, ds, de)
      ensures if flash.buffered then SameOutside(old(View()), View(), ds, de)
              else SameOutside(old(View()), View(), page, page + flash.pageSize)
    {
      hide Logical, DeviceOk, PageAligned, Translate, Dword, Over, Floor4, Ceil4, Burst, Overlay, SameOutside;
      SizeAligned(flash, size, |phys|);
      ghost var v := View();
      SameOutsideRefl(v);
      if !flash.buffered {
        rc := ReadPage(page, flashBuffer);
        if rc != 0 {
          return;
        }
      }
      rc := EnableWrite();
      if rc != 0 {
        return;
      }
      if flash.buffered {
        rc := WriteRun(ds, de, data, true, de - 4);
      } else {
        rc := RewritePage(page, ds, de, data, flashBuffer);
      }
    }

    /** Erasing a page that was read into flashBuffer, and writing all of it back
        around the new data. */
    method RewritePage(page: nat, ds: nat, de: nat, data: seq<Byte>, flashBuffer: array<Byte>) returns (rc: int)
      requires Valid() && locked && !flash.buffered && latch && Dword(page) && PageAligned(flash, page)
      requires page <= ds < de <= page + flash.pageSize <= size && Dword(ds) && Dword(de)
      requires |data| == de - ds && flashBuffer.Length == 264
      requires flashBuffer[..flash.pageSize] == View()[page..page + flash.pageSize]
      modifies this`waits, this`log, this`phys, this`latch, this`enables
      ensures waits >= old(waits) && (rc == 0 <==> Answered(old(waits), waits))
      ensures Valid()
      ensures rc == 0 ==> enables == old(enables) + 1
      ensures rc == 0 ==> Stored(flash, old(View()), View(), page, ds, data, Off(old(enables)))
      ensures rc == 0 ==> log == old(log) + [Cmd(Erase, page, false, false)] +
                                 Burst(Wr, page, page + flash.pageSize, false, true)
      ensures SameOutside(old(View()), View(), page, page + flash.pageSize)
    {
      hide Logical, DeviceOk, PageAligned, Translate, Dword, Over, Floor4, Ceil4, Burst, Overlay, SameOutside;
      SizeAligned(flash, size, |phys|);
      ghost var v := View();
      var saved := flashBuffer[..flash.pageSize];
      rc := ErasePage(page);
      if rc != 0 {
        return;
      }
      // the result of re-enabling writes is not looked at
      var ignored := EnableWrite();
      ghost var v1 := View();
      OverlayAt(v, page, Ones(flash.pageSize));
      rc := WriteBack(page, ds, de, data, saved);
      SameOutsideWiden(v, v1, View(), page, page + flash.pageSize, page, page + flash.pageSize);
      PageRewritten(v, page, flash.pageSize, Ones(flash.pageSize), ds, de, data);
    }

    /** The three write loops over an erased page. */
    method WriteBack(page: nat, ds: nat, de: nat, data: seq<Byte>, saved: seq<Byte>) returns (rc: int)
      requires Valid() && locked && !flash.buffered && Dword(page) && Dword(ds) && Dword(de) && Dword(|saved|)
      requires page <= ds < de <= page + |saved| <= size && |data| == de - ds
      requires forall i :: page <= i < page + |saved| ==> View()[i] == 0xFF
      modifies this`waits, this`log, this`phys, this`latch
      ensures waits >= old(waits) && (rc == 0 <==> Answered(old(waits), waits))
      ensures Valid()
      ensures rc == 0 ==>
                View() == if old(latch) then WrittenBack(old(View()), page, ds, de, data, saved) else old(View())
      ensures rc == 0 ==> log == old(log) + Burst(Wr, page, page + |saved|, false, true)
      ensures SameOutside(old(View()), View(), page, page + |saved|)
    {
      hide Logical, DeviceOk, PageAligned, Translate, Dword, Over, Floor4, Ceil4, Burst, Overlay, SameOutside;
      ghost var v, log0 := View(), log;
      var end := page + |saved|;
      SameOutsideRefl(v);
      DwordStep(page, |saved|);
      OverlayAt(v, page, saved[..ds - page]);
      rc := WriteRun(page, ds, saved[..ds - page], false, end - 4);
      ghost var v2 := View();
      SameOutsideWiden(v, v, v2, page, end, page, ds);
      if rc != 0 {
        return;
      }
      OverlayAt(v2, ds, data);
      rc := WriteRun(ds, de, data, false, end - 4);
      ghost var v3 := View();
      SameOutsideWiden(v, v2, v3, page, end, ds, de);
      if rc != 0 {
        return;
      }
      OverlayJoin(v3, de, [], []);
      assert de == end ==> saved[de - page..] == [];
      rc := WriteRun(de, end, saved[de - page..], false, end - 4);
      SameOutsideWiden(v, v3, View(), page, end, de, end);
      RunsJoin(log0, page, ds, de, end);
    }

    /** The first half of bnx2_nvram_write: completing the data to whole dwords. */
    method Align(offset: nat, data: seq<Byte>) returns (rc: int, start: nat, buf: seq<Byte>)
      requires Valid() && offset + |data| <= size && !locked
      modifies this`waits, this`locked, this`log
      ensures waits >= old(waits) && (rc == 0 <==> Answered(old(waits), waits))
      ensures rc == 0 ==> Covers(View(), offset, data, start, buf) && start == Floor4(offset)
      ensures rc == 0 ==> |buf| == AlignedLength(offset, |data|)
      ensures rc == 0 ==> log == old(log) + AlignCmds(offset, |data|) && !locked
    {
      hide Logical, DeviceOk, PageAligned, Translate, Dword, Over, Floor4, Ceil4, Burst, Overlay, ReadCmds, Covers,
        AlignCmds, AlignedLength, HeadLength, TailNeeded;
      SizeAligned(flash, size, |phys|);
      AlignedFits(offset, |data|, size);
      start, buf := Floor4(offset), data;
      var len32, head, tail;
      rc, len32, head, tail := ReadEnds(offset, |data|);
      if rc != 0 {
        return;
      }
      if Over(offset) == 0 && len32 == |data| {
        CoversItself(View(), offset, data);
      } else {
        var granted := Wait();
        if !granted {
          rc := ENOMEM;
          return;
        }
        buf := Assemble(Over(offset), data, head, tail, Over(offset) != 0, TailNeeded(offset, |data|), len32);
        if Over(offset) != 0 { WordBytes(View(), start, head[..]); }
        if TailNeeded(offset, |data|) { WordBytes(View(), start + len32 - 4, tail[..]); }
        CoversAssembled(View(), offset, data, start, buf, Over(offset) != 0, TailNeeded(offset, |data|));
      }
    }

    /** Reads the dwords that the range begins and ends inside of. */
    method ReadEnds(offset: nat, n: nat) returns (rc: int, len32: nat, head: array<Byte>, tail: array<Byte>)
      requires Valid() && offset + n <= size && !locked
      modifies this`waits, this`locked, this`log
      ensures waits >= old(waits) && (rc == 0 <==> Answered(old(waits), waits))
      ensures head.Length == tail.Length == 4
      ensures rc == 0 ==> len32 == AlignedLength(offset, n)
      ensures rc == 0 && Over(offset) != 0 ==> head[..] == DwordAt(View(), Floor4(offset))
      ensures rc == 0 && TailNeeded(offset, n) ==> tail[..] == DwordAt(View(), Floor4(offset) + len32 - 4)
      ensures rc == 0 ==> log == old(log) + AlignCmds(offset, n) && !locked
    {
      hide Logical, DeviceOk, PageAligned, Translate, Dword, Over, Floor4, Ceil4, Burst, Overlay, ReadCmds,
        AlignedLength, TailNeeded, AlignCmds;
      SizeAligned(flash, size, |phys|);
      AlignedFits(offset, n, size);
      EndsPlan(offset, n);
      ghost var log0 := log;
      rc, len32 := 0, n;
      var start := offset;
      head, tail := new Byte[4], new Byte[4];
      if Over(offset) != 0 {
        start := Floor4(offset);
        len32 := len32 + Over(offset);
        if len32 < 4 {
          len32 := 4;
        }
        rc := Read(start, head, 4);
        if rc != 0 {
          return;
        }
        assert head[..] == head[..4];
      }
      ghost var cmds := if Over(offset) != 0 then ReadCmds(start, 4) else [];
      assert len32 == HeadLength(offset, n) && log == log0 + cmds;
      if Over(len32) != 0 {
        len32 := len32 + (4 - Over(len32));
        AppendAssoc(log0, cmds, ReadCmds(start + len32 - 4, 4));
        rc := Read(start + len32 - 4, tail, 4);
        if rc != 0 {
          return;
        }
        assert tail[..] == tail[..4];
      } else {
        assert cmds + [] == cmds;
      }
    }

    /** bnx2_nvram_write. It returns 0 exactly when no wait and no request for memory
        has failed and every write-enable command that it looks at was done. Then the
        flash has seen exactly the commands of WriteCmds, and exactly the bytes of the
        range have become the data, whatever the alignment, the number of pages and
        the kind of flash; but pages that were not enabled again after the erase are
        all ones. So the data is stored if and only if those pages were to be all ones
        anyway. When it fails, bytes outside the pages of the range are still as they
        were. */
    method Write(offset: nat, data: seq<Byte>) returns (rc: int)
      requires Valid() && offset + |data| <= size && !locked
      modifies this`waits, this`locked, this`log, this`phys, this`latch, this`enables
      ensures Valid() && waits >= old(waits)
      ensures rc == 0 <==>
              && Answered(old(waits), waits)
              && var start := Floor4(offset);
                 Checked(flash, enabling, start, start + AlignedLength(offset, |data|), old(enables))
      ensures rc == 0 ==> View() == Blank(flash, Overlay(old(View()), offset, data),
                                          LostBy(offset, |data|, old(enables)))
      ensures rc == 0 ==>
                (View() == Overlay(old(View()), offset, data) <==>
                 AllOnes(flash, Overlay(old(View()), offset, data), LostBy(offset, |data|, old(enables))))
      ensures rc == 0 ==> var start := Floor4(offset);
                          log == old(log) + AlignCmds(offset, |data|) +
                                 WriteCmds(flash, start, start + AlignedLength(offset, |data|))
      ensures rc == 0 ==> !locked
      ensures var start := Floor4(offset);
              SameOutside(old(View()), View(), PageOf(flash, start),
                          PagesEnd(flash, start, start + AlignedLength(offset, |data|)))
    {
      hide Logical, DeviceOk, PageAligned, Translate, Dword, Over, Floor4, Ceil4, Burst, Overlay, AlignCmds,
        WriteCmds, AlignedLength, Covers, SameOutside, PagesEnd, PageOf, Blank, AllOnes, Checked, LostPages, EnablesFor,
        Answered, HeadLength, TailNeeded;
      SameOutsideRefl(View());
      SizeAligned(flash, size, |phys|);
      var start, buf;
      rc, start, buf := Align(offset, data);
      if rc != 0 {
        return;
      }
      CoversIsOverlay(View(), offset, data, start, buf);
      CoversBounds(View(), offset, data, start, buf);
      ghost var mid := waits;
      rc := WriteAligned(start, buf);
      AnsweredJoin(old(waits), mid, waits);
      BlankSameIff(flash, Overlay(old(View()), offset, data), LostBy(offset, |data|, old(enables)));
    }

    /** The second half of bnx2_nvram_write, from the allocation of flash_buffer on. */
    method WriteAligned(start: nat, buf: seq<Byte>) returns (rc: int)
      requires Valid() && Dword(start) && Dword(|buf|) && start + |buf| <= size && !locked
      modifies this`waits, this`locked, this`log, this`phys, this`latch, this`enables
      ensures Valid() && waits >= old(waits)
      ensures rc == 0 <==> Answered(old(waits), waits) &&
                           Checked(flash, enabling, start, start + |buf|, old(enables))
      ensures rc == 0 ==> View() == Blank(flash, Overlay(old(View()), start, buf),
                                          LostPages(flash, enabling, start, start + |buf|, old(enables)))
      ensures rc == 0 ==> log == old(log) + WriteCmds(flash, start, start + |buf|) && !locked
      ensures SameOutside(old(View()), View(), PageOf(flash, start), PagesEnd(flash, start, start + |buf|))
    {
      hide Logical, DeviceOk, PageAligned, Translate, Dword, Over, Floor4, Ceil4, Overlay, PageOf, SameOutside,
        PagesEnd, WriteCmds, Blank, Checked, LostPages, EnablesFor;
      SizeAligned(flash, size, |phys|);
      SameOutsideRefl(View());
      if !flash.buffered {
        var granted := Wait();
        if !granted {
          return ENOMEM;
        }
      }
      rc := WritePages(start, buf);
    }

    /** The pages that a write of n bytes loses when e write-enable commands came
        before it. */
    ghost function LostBy(offset: nat, n: nat, e: nat): set<nat>
      requires flash.pageSize > 0
    {
      LostPages(flash, enabling, Floor4(offset), Floor4(offset) + AlignedLength(offset, n), e)
    }

    /** The page loop of bnx2_nvram_write. */
    method WritePages(start: nat, buf: seq<Byte>) returns (rc: int)
      requires Valid() && Dword(start) && Dword(|buf|) && start + |buf| <= size && !locked
      modifies this`waits, this`locked, this`log, this`phys, this`latch, this`enables
      ensures Valid() && waits >= old(waits)
      ensures rc == 0 <==> Answered(old(waits), waits) &&
                           Checked(flash, enabling, start, start + |buf|, old(enables))
      ensures rc == 0 ==> View() == Blank(flash, Overlay(old(View()), start, buf),
                                          LostPages(flash, enabling, start, start + |buf|, old(enables)))
      ensures rc == 0 ==> enables == old(enables) + EnablesFor(flash, start, start + |buf|)
      ensures rc == 0 ==> log == old(log) + WriteCmds(flash, start, start + |buf|)
      ensures rc == 0 ==> !locked
      ensures SameOutside(old(View()), View(), PageOf(flash, start), PagesEnd(flash, start, start + |buf|))
    {
      hide Logical, DeviceOk, PageAligned, Translate, Dword, Over, Floor4, Ceil4, Overlay, PageCmds, PageOf,
        SameOutside, PagesEnd, WriteCmds, Blank, PageWithin, Ones, Checked, LostPages, EnablesFor, Stored,
        Answered;
      SizeAligned(flash, size, |phys|);
      ghost var v, log0, e := View(), log, enables;
      var flashBuffer := new Byte[264];
      var written := 0;
      rc := 0;
      NoneLost(flash, enabling, start, enables);
      NoPiece(flash, v, start, buf, log0);
      BlankNone(flash, v);
      SameOutsideRefl(v);
      AnsweredJoin(waits, waits, waits);
      ghost var cur := start;
      DwordStep(start, |buf|);
      while written < |buf|
        invariant 0 <= written <= |buf| && cur == start + written && Dword(cur) && rc == 0 && !locked
        invariant written == 0 || written == |buf| || PageAligned(flash, cur)
        invariant waits >= old(waits) && Answered(old(waits), waits)
        invariant Checked(flash, enabling, start, cur, e) && enables == e + EnablesFor(flash, start, cur)
        invariant Valid() && View() == Blank(flash, Overlay(v, start, buf[..written]),
                                             LostPages(flash, enabling, start, cur, e))
        invariant SameOutside(v, View(), PageOf(flash, start), PagesEnd(flash, start, start + |buf|))
        invariant log == log0 + WriteCmds(flash, start, cur)
      {
        var page := PageOf(flash, start + written);
        var pageEnd := page + flash.pageSize;
        var ds := if written == 0 then start else page;
        var de := if pageEnd > start + |buf| then start + |buf| else pageEnd;
        PageSplit(flash, size, start, cur, start + |buf|);
        ghost var lo, hi, before := PageOf(flash, start), PagesEnd(flash, start, start + |buf|), View();
        WithinPages(flash, start, cur, start + |buf|);
        EnablesStep(flash, enabling, start, page, de, cur, e);
        AppendAssoc(log0, WriteCmds(flash, start, ds), PageCmds(flash, page, ds, de));
        ghost var mid := waits;
        rc := WriteOnePage(page, ds, de, buf[written..de - start], flashBuffer);
        AnsweredJoin(old(waits), mid, waits);
        SameOutsideWiden(v, before, View(), lo, hi, page, pageEnd);
        if rc != 0 {
          CheckedPrefix(flash, enabling, start, de, start + |buf|, e);
          return;
        }
        PieceDone(flash, enabling, v, before, View(), start, buf, written, de - start, page, e);
        written := written + (de - ds);
        cur := de;
      }
    }

    /** One round of the page loop: WritePage under the arbitration lock, which an
        early exit leaves held. */
    method WriteOnePage(page: nat, ds: nat, de: nat, data: seq<Byte>, flashBuffer: array<Byte>) returns (rc: int)
      requires Valid() && Dword(page) && PageAligned(flash, page) && PageWithin(flash, size, page) && !locked
      requires page <= ds < de <= page + flash.pageSize && de <= size && Dword(ds) && Dword(de)
      requires |data| == de - ds && flashBuffer.Length == 264
      modifies this`waits, this`locked, this`log, this`phys, this`latch, this`enables, flashBuffer
      ensures Valid()
      ensures waits >= old(waits)
      ensures rc == 0 <==> Answered(old(waits), waits) && (flash.buffered || enabling(old(enables)).Done?)
      ensures rc == 0 ==> enables == old(enables) + if flash.buffered then 0 else 2
      ensures rc == 0 ==> Stored(flash, old(View()), View(), page, ds, data, Off(old(enables) + 1))
      ensures rc == 0 ==> log == old(log) + PageCmds(flash, page, ds, de) && !locked
      ensures SameOutside(old(View()), View(), page, page + flash.pageSize)
    {
      hide Logical, DeviceOk, PageAligned, Translate, Dword, Over, Floor4, Ceil4, Overlay, PageCmds;
      rc := AcquireLock();
      if rc != 0 {
        return;
      }
      rc := WritePage(page, ds, de, data, flashBuffer);
      if rc != 0 {
        return;
      }
      ReleaseLock();
    }
  }

  // ----- Write-enable commands -----

  /** The data is stored, or the whole page lost. */
  ghost predicate Stored(f: FlashSpec, was: seq<Byte>, now: seq<Byte>, page: nat, ds: nat, data: seq<Byte>, lost: bool)
  {
    if lost then page + f.pageSize <= |was| && now == Overlay(was, page, Ones(f.pageSize))
    else ds + |data| <= |was| && now == Overlay(was, ds, data)
  }

  /** How many of them the page loop issues for the aligned range [from, end): on
      flash that needs them, two for each page. */
  function EnablesFor(f: FlashSpec, from: nat, end: nat): nat
    requires f.pageSize > 0
    decreases end
  {
    if f.buffered || end <= from then 0 else EnablesFor(f, from, LastStart(f, from, end)) + 2
  }

  /** Where the last piece of the range begins: with the last page or with the range. */
  function LastStart(f: FlashSpec, from: nat, end: nat): (ds: nat)
    requires f.pageSize > 0 && from < end
    ensures from <= ds < end
  {
    if PageOf(f, end - 1) <= from then from else PageOf(f, end - 1)
  }

  /** The first command for each page is looked at; all of those are done. The first
      command of all has number e. */
  predicate Checked(f: FlashSpec, enabling: nat -> Enabling, from: nat, end: nat, e: nat)
    requires f.pageSize > 0
    decreases end
  {
    f.buffered || end <= from ||
    var ds := LastStart(f, from, end);
    Checked(f, enabling, from, ds, e) && enabling(e + EnablesFor(f, from, ds)).Done?
  }

  /** The pages for which the second command leaves the flash without. */
  function LostPages(f: FlashSpec, enabling: nat -> Enabling, from: nat, end: nat, e: nat): set<nat>
    requires f.pageSize > 0
    decreases end
  {
    if f.buffered || end <= from then {} else
    var ds := LastStart(f, from, end);
    LostPages(f, enabling, from, ds, e) +
    if enabling(e + EnablesFor(f, from, ds) + 1) == TimedOut(false) then {PageOf(f, end - 1)} else {}
  }

  lemma NoneLost(f: FlashSpec, enabling: nat -> Enabling, from: nat, e: nat)
    requires f.pageSize > 0
    ensures EnablesFor(f, from, from) == 0 && Checked(f, enabling, from, from, e)
    ensures LostPages(f, enabling, from, from, e) == {}
  {
  }

  /** The commands for the piece [cur, de) of a page. */
  lemma EnablesStep(f: FlashSpec, enabling: nat -> Enabling, from: nat, page: nat, de: nat, cur: nat, e: nat)
    requires f.pageSize > 0 && from < de && PageOf(f, de - 1) == page && cur == if page <= from then from else page
    ensures var n := e + EnablesFor(f, from, cur);
            && EnablesFor(f, from, de) == EnablesFor(f, from, cur) + (if f.buffered then 0 else 2)
            && (Checked(f, enabling, from, de, e) <==>
                  Checked(f, enabling, from, cur, e) && (f.buffered || enabling(n).Done?))
            && LostPages(f, enabling, from, de, e) ==
               LostPages(f, enabling, from, cur, e) +
               if !f.buffered && enabling(n + 1) == TimedOut(false) then {page} else {}
  {
    hide PageOf;
  }

  /** A further piece of the range, with what was lost before. */
  lemma PieceDone(f: FlashSpec, enabling: nat -> Enabling, v: seq<Byte>, was: seq<Byte>, now: seq<Byte>, start: nat,
                  buf: seq<Byte>, i: nat, j: nat, page: nat, e: nat)
    requires f.pageSize > 0 && i < j <= |buf| && start + |buf| <= |v| && PageAligned(f, page)
    requires page <= start + i && start + j <= page + f.pageSize && PageOf(f, start + j - 1) == page
    requires i == 0 || page == start + i
    requires was == Blank(f, Overlay(v, start, buf[..i]), LostPages(f, enabling, start, start + i, e))
    requires Stored(f, was, now, page, start + i, buf[i..j],
                    !f.buffered && enabling(e + EnablesFor(f, start, start + i) + 1) == TimedOut(false))
    ensures now == Blank(f, Overlay(v, start, buf[..j]), LostPages(f, enabling, start, start + j, e))
  {
    hide PageOf, PageAligned, Blank, Overlay, LostPages, EnablesFor, Ones, Checked;
    var lost := LostPages(f, enabling, start, start + i, e);
    LostBelow(f, enabling, start, start + i, e);
    PieceStored(f, v, lost, page, start, buf, i, j);
    EnablesStep(f, enabling, start, page, start + j, start + i, e);
    assert lost + {} == lost;
  }

  lemma Two(e: nat, n: nat)
    requires n >= e && (n - e) % 2 == 0
    ensures (n + 1 - e) % 2 == 1 && (n + 2 - e) % 2 == 0
  {
  }

  /** Counting the commands for the range from e on, those with even numbers are the
      ones looked at, and nothing is lost if and only if none of the others leaves the
      flash without. */
  lemma {:induction false} EnablesAre(f: FlashSpec, enabling: nat -> Enabling, from: nat, end: nat, e: nat)
    requires f.pageSize > 0
    ensures EnablesFor(f, from, end) % 2 == 0
    ensures var n := e + EnablesFor(f, from, end);
            && (Checked(f, enabling, from, end, e) <==>
                  forall k: nat :: e <= k < n && (k - e) % 2 == 0 ==> enabling(k).Done?)
            && (LostPages(f, enabling, from, end, e) == {} <==>
                  forall k: nat :: e <= k < n && (k - e) % 2 == 1 ==> enabling(k) != TimedOut(false))
    decreases end
  {
    hide PageOf, LastStart;
    if !f.buffered && from < end {
      var ds := LastStart(f, from, end);
      EnablesAre(f, enabling, from, ds, e);
      var n := e + EnablesFor(f, from, ds);
      Two(e, n);
    }
  }

  lemma {:induction false} LostBelow(f: FlashSpec, enabling: nat -> Enabling, from: nat, end: nat, e: nat)
    requires f.pageSize > 0
    ensures forall p :: p in LostPages(f, enabling, from, end, e) ==> p < end
    ensures end <= from ==> LostPages(f, enabling, from, end, e) == {}
    decreases end
  {
    hide PageOf;
    if !f.buffered && from < end {
      LostBelow(f, enabling, from, LastStart(f, from, end), e);
    }
  }

  /** What is checked for a range has been checked for the pages before. */
  lemma {:induction false} CheckedPrefix(f: FlashSpec, enabling: nat -> Enabling, from: nat, mid: nat, end: nat, e: nat)
    requires f.pageSize > 0 && from < mid <= end && (mid == end || PageAligned(f, mid))
    ensures Checked(f, enabling, from, end, e) ==> Checked(f, enabling, from, mid, e)
    decreases end
  {
    hide PageOf, PageAligned;
    if mid < end {
      PageOfBounds(f, end - 1);
      if PageOf(f, end - 1) < mid { PagesApart(f, PageOf(f, end - 1), mid); }
      CheckedPrefix(f, enabling, from, mid, PageOf(f, end - 1), e);
    }
  }

  lemma NoPiece(f: FlashSpec, v: seq<Byte>, start: nat, buf: seq<Byte>, log: seq<Cmd>)
    requires start + |buf| <= |v| && f.pageSize > 0
    ensures Overlay(v, start, buf[..0]) == v && log + WriteCmds(f, start, start) == log && buf[..|buf|] == buf
  {
    OverlayJoin(v, start, [], []);
  }

  lemma AppendAssoc(a: seq<Cmd>, b: seq<Cmd>, c: seq<Cmd>)
    ensures a + b + c == a + (b + c)
  {
  }

  /** The three loops form one burst. */
  lemma RunsJoin(log: seq<Cmd>, page: nat, ds: nat, de: nat, end: nat)
    requires page <= ds < de <= end && Dword(page) && Dword(ds) && Dword(de) && Dword(end)
    ensures log + Burst(Wr, page, ds, false, end - 4 == ds - 4) + Burst(Wr, ds, de, false, end - 4 == de - 4) +
            Burst(Wr, de, end, false, true) == log + Burst(Wr, page, end, false, true)
  {
    hide Burst;
    var a, b, c := Burst(Wr, page, ds, false, false), Burst(Wr, ds, de, false, end == de), Burst(Wr, de, end,
      false, true);
    BurstJoin(Wr, page, ds, de, false, end == de);
    BurstJoin(Wr, page, de, end, false, true);
    assert log + a + b + c == log + (a + b + c);
  }

  /** A read that starts inside a dword continues the burst of that dword. */
  lemma ReadFraming(log: seq<Cmd>, offset: nat, n: nat)
    requires n > 0
    ensures var a, pre := Floor4(offset), if Over(offset) + n <= 4 then n else 4 - Over(offset);
            if Over(offset) == 0
            then ReadCmds(offset, n) == Burst(Rd, offset, offset + Ceil4(n), true, true)
            else log + [Cmd(Rd, a, true, pre == n)] + Burst(Rd, a + 4, a + 4 + Ceil4(n - pre), false, true) ==
                 log + ReadCmds(offset, n)
  {
    hide Burst, Dword, Over, Floor4, Ceil4;
    var a, pre := Floor4(offset), if Over(offset) + n <= 4 then n else 4 - Over(offset);
    if Over(offset) == 0 {
      Rounding(offset, n);
    } else {
      FramingEnd(offset, n, pre);
      FirstAndRest(a, Ceil4(offset + n));
      AppendAssoc(log, [Cmd(Rd, a, true, pre == n)], Burst(Rd, a + 4, Ceil4(offset + n), false, true));
    }
  }

  lemma FirstAndRest(a: nat, end: nat)
    requires Dword(a) && Dword(a + 4) && Dword(end) && a + 4 <= end
    ensures [Cmd(Rd, a, true, a + 4 == end)] + Burst(Rd, a + 4, end, false, true) == Burst(Rd, a, end, true, true)
  {
    hide Burst, Dword;
    BurstJoin(Rd, a, a + 4, end, true, true);
    BurstStep(Rd, a, a, true, a + 4 == end);
  }

  lemma FramingEnd(offset: nat, n: nat, pre: nat)
    requires n > 0 && Over(offset) != 0 && pre == if Over(offset) + n <= 4 then n else 4 - Over(offset)
    ensures Floor4(offset) + 4 + Ceil4(n - pre) == Ceil4(offset + n)
    ensures Dword(Floor4(offset) + 4) && (pre == n <==> Floor4(offset) + 4 == Ceil4(offset + n))
  {
    hide Dword, Over, Floor4, Ceil4;
    var a := Floor4(offset);
    DwordStep(a, a);
    CeilSmall(Over(offset) + n);
    Rounding(a, Over(offset) + n);
    if pre < n {
      Rounding(a + 4, n - pre);
    }
  }

  lemma CeilSmall(x: nat)
    ensures Dword(0) && Dword(4) && Ceil4(0) == 0 && (0 < x <= 4 ==> Ceil4(x) == 4)
  {
  }

  /** The aligned copy, alignBuf, of data that begins at byte `at` of a dword. */
  method Assemble(at: nat, data: seq<Byte>, head: array<Byte>, tail: array<Byte>, useHead: bool, useTail: bool,
                  len32: nat)
    returns (buf: seq<Byte>)
    requires head.Length == tail.Length == 4 && (len32 == 4 || len32 >= 8) && at + |data| <= len32
    ensures |buf| == len32
    ensures forall i :: 0 <= i < |data| ==> buf[at + i] == data[i]
    ensures useHead && (!useTail || len32 > 4) ==>
              forall i :: 0 <= i < 4 && !(at <= i < at + |data|) ==> buf[i] == head[i]
    ensures useTail ==>
              forall i :: len32 - 4 <= i < len32 && !(at <= i < at + |data|) ==> buf[i] == tail[i - (len32 - 4)]
  {
    var alignBuf := new Byte[len32];
    if useHead {
      forall i | 0 <= i < 4 { alignBuf[i] := head[i]; }
    }
    ghost var b1 := alignBuf[..];
    if useTail {
      forall i | 0 <= i < 4 { alignBuf[len32 - 4 + i] := tail[i]; }
    }
    ghost var b2 := alignBuf[..];
    assert len32 > 4 || !useTail ==> b2[..4] == b1[..4];
    forall i | 0 <= i < |data| { alignBuf[at + i] := data[i]; }
    buf := alignBuf[..];
    assert forall i :: 0 <= i < len32 && !(at <= i < at + |data|) ==> buf[i] == b2[i];
  }

  /** Writing within one page of a 64 kB flash, when nothing fails but the second
      write-enable command: the result is 0, and the whole page is all ones. */
  method PageLost(phys: seq<Byte>, offset: nat, data: seq<Byte>) returns (d: Device, rc: int)
    requires |phys| == 0x1_0000 && |data| > 0
    requires offset + |data| <= PageOf(NON_BUFFERED, offset) + 256 <= |phys|
    ensures fresh(d) && d.Valid() && rc == 0
    ensures d.View() == Overlay(phys, PageOf(NON_BUFFERED, offset), Ones(256))
  {
    hide DeviceOk, Logical, Overlay, PageOf, Blank, Checked, LostPages, AllOnes, WriteCmds, AlignCmds, SameOutside,
      PagesEnd, Floor4, AlignedLength, Ones;
    FlashTableOk();
    Untranslated(phys);
    var enabling := (n: nat) => if n == 1 then TimedOut(false) else Done;
    d := new Device(NON_BUFFERED, phys, |phys|, _ => true, enabling);
    OnePageLost(enabling, offset, |data|);
    rc := d.Write(offset, data);
    BlankPage(phys, offset, data);
  }

  lemma Untranslated(phys: seq<Byte>)
    ensures Logical(NON_BUFFERED, |phys|, phys) == phys
  {
  }

  lemma OnePageLost(enabling: nat -> Enabling, offset: nat, n: nat)
    requires n > 0 && offset + n <= PageOf(NON_BUFFERED, offset) + 256
    requires enabling(0).Done? && enabling(1) == TimedOut(false)
    ensures var start, f := Floor4(offset), NON_BUFFERED;
            && Checked(f, enabling, start, start + AlignedLength(offset, n), 0)
            && LostPages(f, enabling, start, start + AlignedLength(offset, n), 0) == {PageOf(f, offset)}
  {
    var f, start, page := NON_BUFFERED, Floor4(offset), PageOf(NON_BUFFERED, offset);
    var end := start + AlignedLength(offset, n);
    hide PageOf, Floor4, AlignedLength, Over, PageAligned;
    PageOfBounds(f, offset);
    WholePage(page);
    AlignedFits(offset, n, page + 256);
    OnDword(offset, n, page);
    PageOfUnique(f, page, end - 1);
    NoneLost(f, enabling, start, 0);
    EnablesStep(f, enabling, start, page, end, start, 0);
  }

  lemma WholePage(page: nat)
    requires PageAligned(NON_BUFFERED, page)
    ensures Dword(page) && Dword(page + 256)
  {
    var q := page / 256;
    assert page == 4 * (64 * q);
  }

  lemma OnDword(offset: nat, n: nat, page: nat)
    requires n > 0 && Dword(page) && page <= offset
    ensures page <= Floor4(offset) && AlignedLength(offset, n) > 0
  {
  }

  lemma BlankPage(v: seq<Byte>, offset: nat, data: seq<Byte>)
    requires offset + |data| <= PageOf(NON_BUFFERED, offset) + 256 <= |v|
    ensures Blank(NON_BUFFERED, Overlay(v, offset, data), {PageOf(NON_BUFFERED, offset)}) ==
            Overlay(v, PageOf(NON_BUFFERED, offset), Ones(256))
  {
    var f, page := NON_BUFFERED, PageOf(NON_BUFFERED, offset);
    PageOfBounds(f, offset);
    BlankNone(f, v);
    BlankMore(f, v, {}, page, offset, data);
  }
}
