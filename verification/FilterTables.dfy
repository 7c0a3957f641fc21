/** The bit tables by which igb filters: multicast addresses, through a hash of their
    last two bytes, and VLAN ids. */
module FilterTables {
  import opened Bits

  /** mta_reg_count, for which igb_hash_mc_addr ends. */
  type RegCount = n: nat | n == 8 || n == 16 || n == 32 || n == 64 || n == 128 witness 8

  const MAX_MTA_REG := 128

  /** Bytes 4 and 5 of a multicast address. */
  datatype Addr = Addr(b4: bv8, b5: bv8)

  /** The word b5:b4. */
  function Word(a: Addr): bv16 {
    (a.b5 as bv16 << 8) | a.b4 as bv16
  }

  /** x >> s. */
  function Shr(x: nat, s: nat): nat {
    if s == 0 then x else Shr(x, s - 1) / 2
  }

  lemma {:induction false} ShrShrinks(x: nat, s: nat, t: nat)
    requires s <= t
    ensures Shr(x, t) <= Shr(x, s)
  {
    if s < t { ShrShrinks(x, s, t - 1); }
  }

  ghost predicate ShiftLoopEnds(hashMask: nat) {
    exists s: nat :: Shr(hashMask, s) == 0xFF
  }

  /** The search for bit_shift ends for exactly these register counts. */
  lemma ShiftLoopEndsIff(n: nat)
    requires 1 <= n <= MAX_MTA_REG
    ensures ShiftLoopEnds(32 * n - 1) <==> n == 8 || n == 16 || n == 32 || n == 64 || n == 128
  {
    var x := 32 * n - 1;
    assert Shr(x, 0) == x;
    assert Shr(x, 1) == x / 2;
    assert Shr(x, 2) == Shr(x, 1) / 2;
    assert Shr(x, 3) == Shr(x, 2) / 2;
    assert Shr(x, 4) == Shr(x, 3) / 2;
    assert Shr(x, 5) == Shr(x, 4) / 2;
    forall s: nat | s >= 5 ensures Shr(x, s) != 0xFF {
      ShrShrinks(x, 5, s);
    }
  }

  /** mta_reg_count * 32 - 1, and mta_reg_count - 1. */
  function HashMask(n: RegCount): bv16 {
    if n == 8 then 0xFF else if n == 16 then 0x1FF else if n == 32 then 0x3FF else if n == 64 then 0x7FF else 0xFFF
  }

  function RegMask(n: RegCount): bv16 {
    if n == 8 then 7 else if n == 16 then 15 else if n == 32 then 31 else if n == 64 then 63 else 127
  }

  lemma MasksAre(n: RegCount)
    ensures HashMask(n) as nat == 32 * n - 1 && RegMask(n) as nat == n - 1
  {
  }

  /** bit_shift, a u8, for a mc_filter_type of 0, and as mc_filter_type slides it. */
  function BaseShift(n: RegCount): bv8 {
    if n == 8 then 0 else if n == 16 then 1 else if n == 32 then 2 else if n == 64 then 3 else 4
  }

  function Shift(n: RegCount, filterType: nat): (s: bv8)
    ensures s <= 8
  {
    BaseShift(n) + if filterType == 1 then 1 else if filterType == 2 then 2 else if filterType == 3 then 4 else 0
  }

  /** The window of the 16-bit word b5:b4 that selects the bit. */
  function Hash(n: RegCount, filterType: nat, a: Addr): bv16 {
    HashMask(n) & (Word(a) >> (8 - Shift(n, filterType)))
  }

  /** The address 01:AA:00:12:34:56 with 128 registers. For filter type 2 the comment
      in the source gives another value than its code. */
  lemma Examples()
    ensures Hash(128, 0, Addr(0x34, 0x56)) == 0x563 && Hash(128, 1, Addr(0x34, 0x56)) == 0xAC6
    ensures Hash(128, 2, Addr(0x34, 0x56)) == 0x58D && Hash(128, 3, Addr(0x34, 0x56)) == 0x634
  {
  }

  /** igb_hash_mc_addr. */
  method HashMcAddr(n: RegCount, filterType: nat, a: Addr) returns (hashValue: bv16)
    ensures hashValue == Hash(n, filterType, a)
  {
    hide HashMask, BaseShift;
    var hashMask, bitShift: bv8 := HashMask(n), 0;
    ghost var tries := 0;
    Wide(n, bitShift);
    while hashMask >> bitShift != 0xFF
      invariant bitShift <= BaseShift(n) && tries == bitShift as int
      decreases 4 - tries
    {
      Wide(n, bitShift);
      bitShift := bitShift + 1;
      tries := tries + 1;
    }
    Wide(n, bitShift);
    match filterType {
      case 1 => bitShift := bitShift + 1;
      case 2 => bitShift := bitShift + 2;
      case 3 => bitShift := bitShift + 4;
      case _ =>
    }
    var b4, b5 := a.b4 as bv16, a.b5 as bv16;
    ByteOf(a.b4);
    ByteOf(a.b5);
    Joined(b4, b5, bitShift);
    hashValue := hashMask & ((b4 >> (8 - bitShift)) | (b5 << bitShift));
  }

  lemma Wide(n: RegCount, s: bv8)
    requires s <= BaseShift(n)
    ensures HashMask(n) >> s == 0xFF <==> s == BaseShift(n)
    ensures BaseShift(n) <= 4 && s as int <= 4 && (s < 4 ==> (s + 1) as int == s as int + 1)
  {
  }

  /** Shifting the two bytes apart and joining them is shifting their join. */
  lemma Joined(b4: bv16, b5: bv16, s: bv8)
    requires b4 <= 0xFF && b5 <= 0xFF && s <= 8
    ensures (b4 >> (8 - s)) | (b5 << s) == ((b5 << 8) | b4) >> (8 - s)
  {
  }

  lemma ByteOf(b: bv8)
    ensures b as bv16 <= 0xFF
  {
  }

  // ----- Bit tables -----

  /** Register and bit of a hash value. */
  function Reg(n: RegCount, h: bv16): (r: nat)
    ensures r < n
  {
    MasksAre(n);
    Bounded(RegMask(n), h >> 5);
    (RegMask(n) & (h >> 5)) as nat
  }

  /** 1 << (h & 0x1F). */
  function Pos(h: bv16): (m: bv32)
    ensures OneBit(m)
  {
    Bit((h & 0x1F) as bv32)
  }

  /** Hash value h is bit h of the table taken as one array of bits, 32 to a register. */
  lemma TableBit(n: RegCount, h: bv16)
    requires Fits(n, h)
    ensures Reg(n, h) == (h / 32) as nat && Pos(h) == Bit((h % 32) as bv32)
  {
    hide Bit;
    Parts(n, h);
  }

  lemma Parts(n: RegCount, h: bv16)
    requires Fits(n, h)
    ensures RegMask(n) & (h >> 5) == h / 32 && h & 0x1F == h % 32
  {
  }

  lemma PosInjective(h: bv16, v: bv16)
    requires Pos(h) == Pos(v)
    ensures h & 0x1F == v & 0x1F
  {
    hide Bit;
    BitInjective((h & 0x1F) as bv32, (v & 0x1F) as bv32);
  }

  lemma Bounded(mask: bv16, x: bv16)
    ensures mask & x <= mask
  {
  }

  predicate Has(t: seq<bv32>, n: RegCount, h: bv16)
    requires |t| >= n
  {
    On(t[Reg(n, h)], Pos(h))
  }

  lemma Injective(x: bv16, y: bv16)
    requires x as nat == y as nat
    ensures x == y
  {
    assert x as nat as bv16 == x && y as nat as bv16 == y;
  }

  predicate Nested(m: bv16, hm: bv16) {
    m <= 127 && m & (m + 1) == 0 && hm == (m << 5) | 0x1F
  }

  lemma MasksNest(n: RegCount)
    ensures Nested(RegMask(n), HashMask(n))
  {
  }

  lemma Joint(m: bv16, hm: bv16, h: bv16, v: bv16, x: bv16, y: bv16)
    requires Nested(m, hm) && h <= hm && v <= hm
    requires x == m & (h >> 5) && y == m & (v >> 5) && x as nat == y as nat && h & 0x1F == v & 0x1F
    ensures h == v
  {
    Injective(x, y);
  }

  /** A hash value within the mask is determined by its register and bit. */
  lemma BitIsHash(n: RegCount, h: bv16, v: bv16)
    requires h <= HashMask(n) && v <= HashMask(n)
    ensures Reg(n, h) == Reg(n, v) && Pos(h) == Pos(v) <==> h == v
  {
    hide HashMask, RegMask, Pos, Reg;
    if Reg(n, h) == Reg(n, v) && Pos(h) == Pos(v) {
      PosInjective(h, v);
      RegInjective(n, h, v);
    }
  }

  lemma RegInjective(n: RegCount, h: bv16, v: bv16)
    requires h <= HashMask(n) && v <= HashMask(n) && Reg(n, h) == Reg(n, v) && h & 0x1F == v & 0x1F
    ensures h == v
  {
    hide HashMask, RegMask, Pos, Reg;
    MasksNest(n);
    RegIs(n, h, RegMask(n) & (h >> 5));
    RegIs(n, v, RegMask(n) & (v >> 5));
    Joint(RegMask(n), HashMask(n), h, v, RegMask(n) & (h >> 5), RegMask(n) & (v >> 5));
  }

  lemma RegIs(n: RegCount, h: bv16, x: bv16)
    requires x == RegMask(n) & (h >> 5)
    ensures x as nat == Reg(n, h)
  {
    hide RegMask;
  }

  predicate Fits(n: RegCount, h: bv16) {
    h <= HashMask(n)
  }

  /** Every bit of every register is the bit of a hash value, so that the table says
      nothing but which hash values are in it. */
  lemma EveryBitIsAHash(n: RegCount, r: bv16, k: bv16) returns (h: bv16)
    requires r <= RegMask(n) && k < 32
    ensures Fits(n, h) && Reg(n, h) == r as nat && Pos(h) == Bit(k as bv32)
  {
    hide HashMask, RegMask, Pos, Bit, Reg;
    h := (r << 5) | k;
    MasksNest(n);
    Assembled(RegMask(n), HashMask(n), r, k, h);
    RegIs(n, h, r);
    PosIs(h, k);
  }

  lemma Assembled(m: bv16, hm: bv16, r: bv16, k: bv16, h: bv16)
    requires Nested(m, hm) && r <= m && k < 32 && h == (r << 5) | k
    ensures h <= hm && r == m & (h >> 5) && h & 0x1F == k
  {
  }

  lemma PosIs(h: bv16, k: bv16)
    requires h & 0x1F == k
    ensures k < 32 && Pos(h) == Bit(k as bv32)
  {
    hide Bit;
  }

  /** What igb_mta_set makes of the table. */
  function MtaSet(t: seq<bv32>, n: RegCount, h: bv16): (t': seq<bv32>)
    requires |t| >= n
    ensures |t'| == |t|
  {
    t[Reg(n, h) := TurnOn(t[Reg(n, h)], Pos(h))]
  }

  lemma MtaSetHas(t: seq<bv32>, n: RegCount, h: bv16, v: bv16)
    requires |t| >= n && Fits(n, h) && Fits(n, v)
    ensures Has(MtaSet(t, n, h), n, v) <==> h == v || Has(t, n, v)
  {
    hide On, TurnOn, HashMask, RegMask, Reg, Pos;
    BitIsHash(n, h, v);
    TurnedOn(t[Reg(n, h)], Pos(h), Pos(v));
  }

  /** igb_mta_set for each of hs. */
  function SetAll(t: seq<bv32>, n: RegCount, hs: seq<bv16>): (t': seq<bv32>)
    requires |t| >= n
    ensures |t'| == |t| && t'[n..] == t[n..]
  {
    if hs == [] then t else MtaSet(SetAll(t, n, hs[..|hs| - 1]), n, hs[|hs| - 1])
  }

  ghost predicate InMask(n: RegCount, hs: seq<bv16>) {
    forall i :: 0 <= i < |hs| ==> Fits(n, hs[i])
  }

  /** The table is a set: from an empty one, exactly the bits of hs are set. */
  lemma {:induction false} SetAllHas(t: seq<bv32>, n: RegCount, hs: seq<bv16>, v: bv16)
    requires |t| >= n && Fits(n, v) && InMask(n, hs)
    ensures Has(SetAll(t, n, hs), n, v) <==> v in hs || Has(t, n, v)
  {
    hide Has, HashMask, MtaSet, Fits;
    if hs != [] {
      var l := |hs| - 1;
      SetAllHas(t, n, hs[..l], v);
      MtaSetHas(SetAll(t, n, hs[..l]), n, hs[l], v);
      assert hs == hs[..l] + [hs[l]];
    }
  }

  lemma MtaSetCommutes(t: seq<bv32>, n: RegCount, g: bv16, h: bv16)
    requires |t| >= n
    ensures MtaSet(MtaSet(t, n, g), n, h) == MtaSet(MtaSet(t, n, h), n, g)
  {
    hide Reg, Pos, TurnOn;
    TurnOnCommutes(t[Reg(n, g)], Pos(g), Pos(h));
  }

  /** A hash can be set last as well as at its place. */
  lemma {:induction false} SetLast(t: seq<bv32>, n: RegCount, hs: seq<bv16>, i: nat)
    requires |t| >= n && i < |hs|
    ensures SetAll(t, n, hs) == MtaSet(SetAll(t, n, hs[..i] + hs[i + 1..]), n, hs[i])
  {
    hide MtaSet;
    var l := |hs| - 1;
    if i == l {
      assert hs[..i] + hs[i + 1..] == hs[..l];
    } else {
      SetLast(t, n, hs[..l], i);
      var rest := hs[..i] + hs[i + 1..];
      assert rest[..|rest| - 1] == hs[..l][..i] + hs[..l][i + 1..] && rest[|rest| - 1] == hs[l];
      MtaSetCommutes(SetAll(t, n, rest[..|rest| - 1]), n, hs[i], hs[l]);
    }
  }

  lemma SameRest(gs: seq<bv16>, hs: seq<bv16>, i: nat)
    requires |gs| > 0 && i < |hs| && hs[i] == gs[|gs| - 1] && multiset(gs) == multiset(hs)
    ensures multiset(gs[..|gs| - 1]) == multiset(hs[..i] + hs[i + 1..])
  {
    var g := hs[i];
    assert gs == gs[..|gs| - 1] + [g];
    assert hs == hs[..i] + [g] + hs[i + 1..];
    assert multiset(gs[..|gs| - 1]) + multiset{g} == multiset(hs[..i] + hs[i + 1..]) + multiset{g};
    SubtractOne(multiset(gs[..|gs| - 1]), multiset(hs[..i] + hs[i + 1..]), g);
  }

  lemma SubtractOne(a: multiset<bv16>, b: multiset<bv16>, x: bv16)
    requires a + multiset{x} == b + multiset{x}
    ensures a == b
  {
    assert a == a + multiset{x} - multiset{x};
    assert b == b + multiset{x} - multiset{x};
  }

  /** The order of the addresses does not matter. */
  lemma {:induction false} AnyOrder(t: seq<bv32>, n: RegCount, gs: seq<bv16>, hs: seq<bv16>)
    requires |t| >= n && multiset(gs) == multiset(hs)
    ensures SetAll(t, n, gs) == SetAll(t, n, hs)
    decreases |gs|
  {
    hide MtaSet;
    assert |gs| == |multiset(gs)| == |multiset(hs)| == |hs|;
    if gs != [] {
      var g := gs[|gs| - 1];
      assert g in multiset(hs);
      var i :| 0 <= i < |hs| && hs[i] == g;
      var rest := hs[..i] + hs[i + 1..];
      SameRest(gs, hs, i);
      AnyOrder(t, n, gs[..|gs| - 1], rest);
      SetLast(t, n, hs, i);
    }
  }

  function Hashes(n: RegCount, filterType: nat, addrs: seq<Addr>): seq<bv16> {
    seq(|addrs|, i requires 0 <= i < |addrs| => Hash(n, filterType, addrs[i]))
  }

  const CLEAR: seq<bv32> := seq(MAX_MTA_REG, i => 0)
  const E1000_ERR_CONFIG := 3

  class Mac {
    const mtaRegCount: RegCount
    const mcFilterType: nat
    const mtaShadow: array<bv32>
    /** The MTA and VFTA registers. */
    const mta: array<bv32>
    const vfta: array<bv32>

    ghost predicate Valid() {
      mtaShadow.Length == mta.Length == vfta.Length == MAX_MTA_REG && mtaShadow != mta
    }

    /** igb_update_mc_addr_list: whatever was in the table, afterwards it has the
        bits of the addresses and no others, as if igb_mta_set had been called for
        each of them on a cleared table. */
    method UpdateMcAddrList(addrs: seq<Addr>)
      requires Valid()
      modifies mtaShadow, mta
      ensures mta[..mtaRegCount] == SetAll(CLEAR, mtaRegCount, Hashes(mtaRegCount, mcFilterType,
        addrs))[..mtaRegCount]
      ensures mta[mtaRegCount..] == old(mta[mtaRegCount..])
      ensures forall v :: Fits(mtaRegCount, v) ==>
                (Has(mta[..mtaRegCount], mtaRegCount, v) <==> v in Hashes(mtaRegCount, mcFilterType, addrs))
    {
      hide Hash, HashMask, RegMask, Has, Reg, Pos, TurnOn, Fits, On, SetAll, Hashes, Shift;
      FillShadow(addrs);
      ghost var table := mtaShadow[..];
      WriteTable();
      TableIsSet(mtaRegCount, mcFilterType, addrs, mta[..mtaRegCount], table);
    }

    /** Its first two parts: clear mta_shadow and fill it from the list. */
    method FillShadow(addrs: seq<Addr>)
      requires Valid()
      modifies mtaShadow
      ensures mtaShadow[..] == SetAll(CLEAR, mtaRegCount, Hashes(mtaRegCount, mcFilterType, addrs))
    {
      hide Hash, HashMask, RegMask, Has, Reg, Pos, TurnOn, Fits, On, Shift;
      var n := mtaRegCount;
      forall i | 0 <= i < mtaShadow.Length {
        mtaShadow[i] := 0;
      }
      ghost var hs := Hashes(n, mcFilterType, addrs);
      assert mtaShadow[..] == CLEAR;
      var i := 0;
      while i < |addrs|
        invariant 0 <= i <= |addrs| && mtaShadow[..] == SetAll(CLEAR, n, hs[..i])
      {
        assert hs[..i + 1][..i] == hs[..i];
        var hashValue := HashMcAddr(n, mcFilterType, addrs[i]);
        var hashReg := Reg(n, hashValue);
        ghost var was := mtaShadow[..];
        mtaShadow[hashReg] := TurnOn(mtaShadow[hashReg], Pos(hashValue));
        assert mtaShadow[..] == MtaSet(was, n, hashValue);
        i := i + 1;
      }
      assert hs[..i] == hs;
    }

    /** Its last part: replace the table. */
    method WriteTable()
      requires Valid()
      modifies mta
      ensures mta[..mtaRegCount] == mtaShadow[..mtaRegCount] && mta[mtaRegCount..] == old(mta[mtaRegCount..])
    {
      var i := mtaRegCount - 1;
      while i >= 0
        invariant -1 <= i < mtaRegCount
        invariant forall k :: i < k < mtaRegCount ==> mta[k] == mtaShadow[k]
        invariant forall k :: mtaRegCount <= k < mta.Length ==> mta[k] == old(mta[k])
      {
        mta[i] := mtaShadow[i];
        i := i - 1;
      }
    }

    /** igb_mta_set. */
    method SetMta(hashValue: bv16)
      requires Valid()
      modifies mta
      ensures mta[..] == MtaSet(old(mta[..]), mtaRegCount, hashValue)
    {
      var hashReg := Reg(mtaRegCount, hashValue);
      mta[hashReg] := TurnOn(mta[hashReg], Pos(hashValue));
    }

    /** igb_vfta_set: only the bit of this VLAN id, of which 12 bits count, may
        change, and the result tells whether it was already as wanted. */
    method VftaSet(vid: bv16, add: bool) returns (rc: int)
      requires Valid()
      modifies vfta
      ensures rc == -E1000_ERR_CONFIG <==> old(Has(vfta[..], 128, vid)) == add
      ensures rc == 0 <==> old(Has(vfta[..], 128, vid)) != add
      ensures forall v: bv16 :: v <= 0xFFF ==>
                (Has(vfta[..], 128, v) <==> if v == vid & 0xFFF then add else old(Has(vfta[..], 128, v)))
    {
      hide RegMask, HashMask, Reg, On, TurnOn, TurnOff, Pos;
      MaskedVid(vid);
      ghost var was := vfta[..];
      var index := Reg(128, vid);
      var word := vfta[index];
      rc := 0;
      if On(word, Pos(vid)) == add {
        rc := -E1000_ERR_CONFIG;
      } else if add {
        word := TurnOn(word, Pos(vid));
      } else {
        word := TurnOff(word, Pos(vid));
      }
      vfta[index] := word;
      assert vfta[..] == was[index := word];
      forall v: bv16 | v <= 0xFFF
        ensures Has(vfta[..], 128, v) <==> if v == vid & 0xFFF then add else Has(was, 128, v)
      {
        OneVlan(was, vid & 0xFFF, v, add);
      }
    }
  }

  lemma OneVlan(was: seq<bv32>, vid: bv16, v: bv16, add: bool)
    requires |was| == 128 && vid <= 0xFFF && v <= 0xFFF
    ensures var word := was[Reg(128, vid)];
            var now := if On(word, Pos(vid)) == add then word
                       else if add then TurnOn(word, Pos(vid)) else TurnOff(word, Pos(vid));
            Has(was[Reg(128, vid) := now], 128, v) <==> if v == vid then add else Has(was, 128, v)
  {
    hide RegMask, Reg, On, TurnOn, TurnOff, Pos;
    BitIsHash(128, vid, v);
    TurnedOn(was[Reg(128, vid)], Pos(vid), Pos(v));
    TurnedOff(was[Reg(128, vid)], Pos(vid), Pos(v));
  }

  lemma MaskedVid(vid: bv16)
    ensures Reg(128, vid & 0xFFF) == Reg(128, vid) && Pos(vid & 0xFFF) == Pos(vid) && vid & 0xFFF <= 0xFFF
  {
    hide Bit;
    MaskedShift(vid);
  }

  lemma MaskedShift(vid: bv16)
    ensures 127 & ((vid & 0xFFF) >> 5) == 127 & (vid >> 5) && (vid & 0xFFF) & 0x1F == vid & 0x1F && vid & 0xFFF <= 0xFFF
  {
  }

  lemma TableIsSet(n: RegCount, filterType: nat, addrs: seq<Addr>, mta: seq<bv32>, table: seq<bv32>)
    requires table == SetAll(CLEAR, n, Hashes(n, filterType, addrs)) && mta == table[..n]
    ensures forall v :: Fits(n, v) ==> (Has(mta, n, v) <==> v in Hashes(n, filterType, addrs))
  {
    hide HashMask, RegMask, Reg, Pos, On, Fits;
    var hs := Hashes(n, filterType, addrs);
    HashesFit(n, filterType, addrs);
    forall v | Fits(n, v) ensures Has(mta, n, v) <==> v in hs {
      SetAllHas(CLEAR, n, hs, v);
      assert CLEAR[Reg(n, v)] == 0;
      NothingOn(Pos(v));
    }
  }

  lemma HashesFit(n: RegCount, filterType: nat, addrs: seq<Addr>)
    ensures InMask(n, Hashes(n, filterType, addrs))
  {
    hide HashMask, Shift;
    forall i | 0 <= i < |addrs| ensures Fits(n, Hash(n, filterType, addrs[i])) {
      var a := addrs[i];
      Bounded(HashMask(n), Word(a) >> (8 - Shift(n, filterType)));
    }
  }
}
