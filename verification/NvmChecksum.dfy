/** The EEPROM checksums of the 82580 and i350 igb ports: each region of 0x40 words
    sums to NVM_SUM modulo 2^16, its last word making up the difference. */
module NvmChecksum {

  type U16 = x: int | 0 <= x < 0x1_0000

  const NVM_CHECKSUM_REG := 0x3F
  const NVM_COMPATIBILITY_REG_3 := 3
  const NVM_COMPATIBILITY_BIT_MASK := 0x8000
  const NVM_SUM: U16 := 0xBABA
  const REGION := NVM_CHECKSUM_REG + 1
  const REGIONS := 4
  const E1000_ERR_NVM := 1

  /** Truncation to a u16. */
  function Low(x: int): U16 {
    x % 0x1_0000
  }

  lemma LowAdd(x: int, w: int)
    ensures Low(Low(x) + w) == Low(x + w)
  {
  }

  lemma LowComplete(x: int, want: U16)
    ensures Low(x + Low(want - Low(x))) == want
  {
  }

  lemma LowInjective(x: int, a: U16, b: U16)
    requires Low(x + a) == Low(x + b)
    ensures a == b
  {
  }

  /** The sum of n words. */
  function Sum(words: seq<U16>, at: nat, n: nat): nat
    requires at + n <= |words|
  {
    if n == 0 then 0 else Sum(words, at, n - 1) + words[at + n - 1]
  }

  predicate RegionOk(words: seq<U16>, offset: nat) {
    offset + REGION <= |words| && Low(Sum(words, offset, REGION)) == NVM_SUM
  }

  /** NVM_82580_LAN_FUNC_OFFSET. */
  function RegionOffset(j: nat): nat {
    if j != 0 then 0x40 + 0x40 * j else 0
  }

  function ChecksumOf(j: nat): nat {
    RegionOffset(j) + NVM_CHECKSUM_REG
  }

  predicate InRegion(i: nat, j: nat) {
    RegionOffset(j) <= i < RegionOffset(j) + REGION
  }

  /** The regions of the LAN functions, by word numbers: words 0x40 to 0x7F are in
      none. */
  lemma RegionsAre(i: nat)
    ensures InRegion(i, 0) <==> i <= 0x3F
    ensures InRegion(i, 1) <==> 0x80 <= i <= 0xBF
    ensures InRegion(i, 2) <==> 0xC0 <= i <= 0xFF
    ensures InRegion(i, 3) <==> 0x100 <= i <= 0x13F
    ensures IsChecksum(i, 4) <==> i == 0x3F || i == 0xBF || i == 0xFF || i == 0x13F
  {
    assert ChecksumOf(0) == 0x3F && ChecksumOf(1) == 0xBF && ChecksumOf(2) == 0xFF && ChecksumOf(3) == 0x13F;
  }

  /** The compatibility bit is the top bit of its word. */
  predicate Compatible(words: seq<U16>) {
    NVM_COMPATIBILITY_REG_3 < |words| && words[NVM_COMPATIBILITY_REG_3] >= NVM_COMPATIBILITY_BIT_MASK
  }

  /** The first n regions are right. */
  predicate RegionsOk(words: seq<U16>, n: nat) {
    forall j :: 0 <= j < n ==> RegionOk(words, RegionOffset(j))
  }

  function Checked82580(words: seq<U16>): nat {
    if Compatible(words) then REGIONS else 1
  }

  predicate Valid82580(words: seq<U16>) {
    NVM_COMPATIBILITY_REG_3 < |words| && RegionsOk(words, Checked82580(words))
  }

  /** Nothing but word i differs. */
  predicate OnlyWord(was: seq<U16>, words: seq<U16>, i: nat) {
    |words| == |was| && forall k :: 0 <= k < |words| && k != i ==> words[k] == was[k]
  }

  predicate IsChecksum(i: nat, n: nat) {
    exists j :: 0 <= j < n && i == ChecksumOf(j)
  }

  /** Nothing but checksum words of the first n regions differs. */
  predicate OnlyChecksums(was: seq<U16>, words: seq<U16>, n: nat) {
    |words| == |was| && forall i :: 0 <= i < |words| && !IsChecksum(i, n) ==> words[i] == was[i]
  }

  /** `words` with the compatibility bit set. */
  function Marked(words: seq<U16>): seq<U16>
    requires NVM_COMPATIBILITY_REG_3 < |words|
  {
    var w := words[NVM_COMPATIBILITY_REG_3];
    if w >= NVM_COMPATIBILITY_BIT_MASK then words
    else words[NVM_COMPATIBILITY_REG_3 := w + NVM_COMPATIBILITY_BIT_MASK]
  }

  // ----- Sums -----

  lemma {:induction false} SumSame(a: seq<U16>, b: seq<U16>, at: nat, n: nat)
    requires at + n <= |a| && at + n <= |b| && forall i :: at <= i < at + n ==> a[i] == b[i]
    ensures Sum(a, at, n) == Sum(b, at, n)
  {
    if n > 0 { SumSame(a, b, at, n - 1); }
  }

  lemma {:induction false} SumChange(words: seq<U16>, at: nat, n: nat, i: nat, v: U16)
    requires at + n <= |words| && i < |words|
    ensures Sum(words[i := v], at, n) == Sum(words, at, n) + if at <= i < at + n then v - words[i] else 0
  {
    if n > 0 { SumChange(words, at, n - 1, i, v); }
  }

  /** The checksum word is what its region lacks. */
  lemma ChecksumCompletes(words: seq<U16>, offset: nat)
    requires offset + REGION <= |words|
    ensures RegionOk(words[offset + NVM_CHECKSUM_REG := Low(NVM_SUM - Low(Sum(words, offset, NVM_CHECKSUM_REG)))],
      offset)
  {
    hide Low;
    var c := offset + NVM_CHECKSUM_REG;
    var v := Low(NVM_SUM - Low(Sum(words, offset, NVM_CHECKSUM_REG)));
    SumSame(words, words[c := v], offset, NVM_CHECKSUM_REG);
    LowComplete(Sum(words, offset, NVM_CHECKSUM_REG), NVM_SUM);
  }

  /** A region no longer adds up when one of its words changes, and is unaffected
      by any other word. */
  lemma ChangeOne(words: seq<U16>, offset: nat, i: nat, v: U16)
    requires i < |words| && v != words[i] && RegionOk(words, offset)
    ensures RegionOk(words[i := v], offset) <==> !(offset <= i < offset + REGION)
  {
    hide Low;
    var s := Sum(words, offset, REGION);
    SumChange(words, offset, REGION, i, v);
    if Low(s + v - words[i]) == Low(s) {
      LowInjective(s - words[i], v, words[i]);
    }
  }

  lemma RegionsDisjoint(j: nat, k: nat, i: nat)
    requires InRegion(i, j) && InRegion(i, k)
    ensures j == k
  {
  }

  /** Writing one region's checksum leaves the other regions right. */
  lemma ChecksumKeeps(was: seq<U16>, words: seq<U16>, j: nat)
    requires RegionsOk(was, j) && OnlyWord(was, words, ChecksumOf(j))
    ensures RegionsOk(words, j)
  {
    hide Low, Sum;
    forall k | 0 <= k < j ensures RegionOk(words, RegionOffset(k)) {
      assert RegionOk(was, RegionOffset(k));
      SumSame(was, words, RegionOffset(k), REGION);
    }
  }

  lemma LowZero()
    ensures Low(0) == 0
  {
  }

  lemma MoreChecksums(was: seq<U16>, now: seq<U16>, then': seq<U16>, j: nat)
    requires j < REGIONS && OnlyChecksums(was, now, j) && OnlyWord(now, then', ChecksumOf(j))
    ensures OnlyChecksums(was, then', j + 1) && OnlyChecksums(was, then', REGIONS)
  {
    hide ChecksumOf;
    forall i | 0 <= i < |was| && then'[i] != was[i] ensures IsChecksum(i, j + 1) && IsChecksum(i, REGIONS) {
      if i == ChecksumOf(j) {
      } else {
        assert IsChecksum(i, j);
      }
    }
  }

  /** The word with the compatibility bit is not a checksum. */
  lemma WordIsNoChecksum(words: seq<U16>)
    ensures !IsChecksum(NVM_COMPATIBILITY_REG_3, REGIONS)
  {
  }

  // ----- What the checksums detect -----

  /** In a valid image of an 82580, changing a single word is detected exactly when
      the word belongs to a checked region: the first always, the others when the
      compatibility bit is set. Clearing that bit is therefore detected. */
  lemma DetectedIff82580(words: seq<U16>, i: nat, v: U16)
    requires Valid82580(words) && i < |words| && v != words[i]
    ensures !Valid82580(words[i := v]) <==>
            InRegion(i, 0) || (Compatible(words) && exists j :: 1 <= j < REGIONS && InRegion(i, j))
  {
    hide RegionOk;
    ChangeOne(words, RegionOffset(0), i, v);
    assert RegionOk(words[i := v], RegionOffset(0)) <==> !InRegion(i, 0);
    if !InRegion(i, 0) {
      forall j | 0 <= j < Checked82580(words)
        ensures RegionOk(words[i := v], RegionOffset(j)) <==> !InRegion(i, j)
      {
        ChangeOne(words, RegionOffset(j), i, v);
      }
    }
  }

  /** The same for an i350, which always checks four regions. */
  lemma DetectedIffI350(words: seq<U16>, i: nat, v: U16)
    requires RegionsOk(words, REGIONS) && i < |words| && v != words[i]
    ensures !RegionsOk(words[i := v], REGIONS) <==> exists j :: 0 <= j < REGIONS && InRegion(i, j)
  {
    hide RegionOk;
    forall j | 0 <= j < REGIONS
      ensures RegionOk(words[i := v], RegionOffset(j)) <==> !InRegion(i, j)
    {
      ChangeOne(words, RegionOffset(j), i, v);
    }
  }

  /** What is not detected: exchanging two words of one region. */
  lemma SwapUndetected(words: seq<U16>, offset: nat, i: nat, k: nat)
    requires RegionOk(words, offset) && offset <= i < offset + REGION && offset <= k < offset + REGION
    ensures RegionOk(words[i := words[k]][k := words[i]], offset)
  {
    hide Low, Sum;
    SumChange(words, offset, REGION, i, words[k]);
    SumChange(words[i := words[k]], offset, REGION, k, words[i]);
  }

  // ----- What an update leaves -----

  lemma NotAChecksum(k: nat, j: nat, n: nat)
    requires RegionOffset(j) <= k < ChecksumOf(j)
    ensures !IsChecksum(k, n)
  {
    forall m | 0 <= m < n ensures k != ChecksumOf(m) {
      if k == ChecksumOf(m) { RegionsDisjoint(j, m, k); }
    }
  }

  lemma ChecksumDetermined(a: seq<U16>, b: seq<U16>, j: nat)
    requires RegionOk(a, RegionOffset(j)) && RegionOk(b, RegionOffset(j))
    requires forall k :: RegionOffset(j) <= k < ChecksumOf(j) ==> a[k] == b[k]
    ensures a[ChecksumOf(j)] == b[ChecksumOf(j)]
  {
    hide Low;
    SumSame(a, b, RegionOffset(j), NVM_CHECKSUM_REG);
    LowInjective(Sum(a, RegionOffset(j), NVM_CHECKSUM_REG), a[ChecksumOf(j)], b[ChecksumOf(j)]);
  }

  /** The words that are not checksums determine an image whose regions add up. */
  lemma UpdateDetermined(was: seq<U16>, a: seq<U16>, b: seq<U16>, n: nat)
    requires OnlyChecksums(was, a, n) && OnlyChecksums(was, b, n) && RegionsOk(a, n) && RegionsOk(b, n)
    ensures a == b
  {
    hide RegionOk, RegionOffset, ChecksumOf;
    forall i | 0 <= i < |a| ensures a[i] == b[i] {
      if IsChecksum(i, n) {
        var j :| 0 <= j < n && i == ChecksumOf(j);
        RegionFits(a, j);
        forall k | RegionOffset(j) <= k < i ensures a[k] == b[k] {
          NotAChecksum(k, j, n);
        }
        ChecksumDetermined(a, b, j);
      }
    }
  }

  lemma RegionFits(a: seq<U16>, j: nat)
    requires RegionOk(a, RegionOffset(j))
    ensures RegionOffset(j) <= ChecksumOf(j) < |a|
  {
  }

  /** Updating an image that is already right changes nothing. */
  lemma UpdateIdempotent(was: seq<U16>, words: seq<U16>)
    requires Compatible(was) && RegionsOk(was, REGIONS)
    requires OnlyChecksums(Marked(was), words, REGIONS) && RegionsOk(words, REGIONS)
    ensures words == was
  {
    UpdateDetermined(was, was, words, REGIONS);
  }

  /** What an access to the part comes to: a write that fails may have taken effect. */
  datatype Access = Done | Failed(stored: bool)

  /** The part has all the regions. */
  predicate Holding(words: seq<U16>) {
    ChecksumOf(REGIONS - 1) < |words|
  }

  class Nvm {
    /** What the n-th access comes to, and how many there have been. */
    const answers: nat -> Access
    var accesses: nat
    var words: seq<U16>

    constructor (words: seq<U16>, answers: nat -> Access)
      ensures this.words == words && this.answers == answers && accesses == 0
    {
      this.words, this.answers, accesses := words, answers, 0;
    }

    /** The part has answered every access from number a up to b. */
    ghost predicate Answered(a: nat, b: nat) {
      forall k: nat :: a <= k < b ==> answers(k).Done?
    }

    /** nvm.ops.read of one word: beyond the end of the part, and when the part does
        not answer, it fails. */
    method Read(offset: nat) returns (rc: int, data: U16)
      modifies this`accesses
      ensures accesses == old(accesses) + 1
      ensures rc == 0 <==> answers(old(accesses)).Done? && offset < |words|
      ensures rc == 0 ==> data == words[offset]
    {
      var ready := answers(accesses).Done?;
      accesses := accesses + 1;
      if !ready || offset >= |words| {
        return -E1000_ERR_NVM, 0;
      }
      rc, data := 0, words[offset];
    }

    /** nvm.ops.write of one word. */
    method Write(offset: nat, data: U16) returns (rc: int)
      modifies this`words, this`accesses
      ensures accesses == old(accesses) + 1
      ensures rc == 0 <==> answers(old(accesses)).Done? && offset < |old(words)|
      ensures words == if offset < |old(words)| && answers(old(accesses)) != Failed(false)
                       then old(words)[offset := data] else old(words)
    {
      var answer := answers(accesses);
      accesses := accesses + 1;
      if offset < |words| && answer != Failed(false) {
        words := words[offset := data];
      }
      rc := if answer.Done? && offset < |words| then 0 else -E1000_ERR_NVM;
    }

    /** igb_validate_nvm_checksum_with_offset. */
    method ValidateWithOffset(offset: nat) returns (rc: int)
      requires offset + REGION < 0x1_0000
      modifies this`accesses
      ensures accesses >= old(accesses) && (rc == 0 <==> Answered(old(accesses), accesses) && RegionOk(words, offset))
    {
      hide Low;
      var checksum: U16 := 0;
      var i := offset;
      LowZero();
      while i < NVM_CHECKSUM_REG + offset + 1
        invariant offset <= i <= offset + REGION && (i > offset ==> i <= |words|)
        invariant i <= |words| ==> checksum == Low(Sum(words, offset, i - offset))
        invariant accesses >= old(accesses) && Answered(old(accesses), accesses)
      {
        var nvmData;
        rc, nvmData := Read(i);
        if rc != 0 {
          return;
        }
        LowAdd(Sum(words, offset, i - offset), nvmData);
        checksum := Low(checksum + nvmData);
        i := i + 1;
      }
      rc := 0;
      if checksum != NVM_SUM {
        rc := -E1000_ERR_NVM;
      }
    }

    /** igb_update_nvm_checksum_with_offset. Whether it succeeds or not, no other
        word changes. */
    method UpdateWithOffset(offset: nat) returns (rc: int)
      requires offset + REGION < 0x1_0000
      modifies this`words, this`accesses
      ensures rc == 0 ==> RegionOk(words, offset)
      ensures OnlyWord(old(words), words, offset + NVM_CHECKSUM_REG)
      ensures accesses >= old(accesses)
      ensures rc == 0 <==> Answered(old(accesses), accesses) && offset + REGION <= |words|
    {
      hide Low;
      var checksum: U16 := 0;
      var i := offset;
      LowZero();
      while i < NVM_CHECKSUM_REG + offset
        invariant offset <= i <= offset + NVM_CHECKSUM_REG && (i > offset ==> i <= |words|)
        invariant i <= |words| ==> checksum == Low(Sum(words, offset, i - offset))
        invariant accesses >= old(accesses) && Answered(old(accesses), accesses) && words == old(words)
      {
        var nvmData;
        rc, nvmData := Read(i);
        if rc != 0 {
          return;
        }
        LowAdd(Sum(words, offset, i - offset), nvmData);
        checksum := Low(checksum + nvmData);
        i := i + 1;
      }
      checksum := Low(NVM_SUM - checksum);
      if offset + REGION <= |words| {
        ChecksumCompletes(words, offset);
      }
      rc := Write(NVM_CHECKSUM_REG + offset, checksum);
    }

    /** igb_validate_nvm_checksum_82580. */
    method Validate82580() returns (rc: int)
      modifies this`accesses
      ensures accesses >= old(accesses) && (rc == 0 <==> Answered(old(accesses), accesses) && Valid82580(words))
    {
      hide RegionOk;
      var nvmData;
      rc, nvmData := Read(NVM_COMPATIBILITY_REG_3);
      if rc != 0 {
        return;
      }
      var eepromRegionsCount := 1;
      if nvmData >= NVM_COMPATIBILITY_BIT_MASK {
        eepromRegionsCount := REGIONS;
      }
      rc := ValidateRegions(eepromRegionsCount);
    }

    /** igb_validate_nvm_checksum_i350, and the loop of the 82580. */
    method ValidateRegions(count: nat) returns (rc: int)
      requires count <= REGIONS
      modifies this`accesses
      ensures accesses >= old(accesses) && (rc == 0 <==> Answered(old(accesses), accesses) && RegionsOk(words, count))
    {
      hide RegionOk;
      rc := 0;
      var j := 0;
      while j < count
        invariant 0 <= j <= count && RegionsOk(words, j)
        invariant accesses >= old(accesses) && Answered(old(accesses), accesses)
      {
        rc := ValidateWithOffset(RegionOffset(j));
        if rc != 0 {
          return;
        }
        j := j + 1;
      }
      rc := 0;
    }

    /** igb_update_nvm_checksum_82580. On success the image is valid, with the
        compatibility bit set; in any case nothing but that bit and the four
        checksum words may have changed. */
    method Update82580() returns (rc: int)
      modifies this`words, this`accesses
      ensures rc == 0 ==> Valid82580(words) && Compatible(words) && RegionsOk(words, REGIONS)
      ensures rc == 0 ==> NVM_COMPATIBILITY_REG_3 < |old(words)| && OnlyChecksums(Marked(old(words)), words, REGIONS)
      ensures words == old(words) ||
              (NVM_COMPATIBILITY_REG_3 < |old(words)| && OnlyChecksums(Marked(old(words)), words, REGIONS))
      ensures accesses >= old(accesses) && (rc == 0 <==> Answered(old(accesses), accesses) && Holding(words))
    {
      hide RegionOk;
      var nvmData;
      rc, nvmData := Read(NVM_COMPATIBILITY_REG_3);
      if rc != 0 {
        return;
      }
      if nvmData < NVM_COMPATIBILITY_BIT_MASK {
        nvmData := nvmData + NVM_COMPATIBILITY_BIT_MASK;
        rc := Write(NVM_COMPATIBILITY_REG_3, nvmData);
        if rc != 0 {
          assert words == old(words) || words == Marked(old(words));
          return;
        }
      }
      assert words == Marked(old(words));
      rc := UpdateI350();
      WordIsNoChecksum(words);
    }

    /** igb_update_nvm_checksum_i350, and the loop of the 82580. */
    method UpdateI350() returns (rc: int)
      modifies this`words, this`accesses
      ensures rc == 0 ==> RegionsOk(words, REGIONS)
      ensures OnlyChecksums(old(words), words, REGIONS)
      ensures accesses >= old(accesses) && (rc == 0 <==> Answered(old(accesses), accesses) && Holding(words))
    {
      hide RegionOk;
      rc := 0;
      var j := 0;
      while j < REGIONS
        invariant 0 <= j <= REGIONS && RegionsOk(words, j) && (j == REGIONS ==> Holding(words))
        invariant accesses >= old(accesses) && Answered(old(accesses), accesses)
        invariant OnlyChecksums(old(words), words, j)
      {
        ghost var was := words;
        rc := UpdateWithOffset(RegionOffset(j));
        MoreChecksums(old(words), was, words, j);
        if rc != 0 {
          return;
        }
        ChecksumKeeps(was, words, j);
        j := j + 1;
      }
      rc := 0;
    }
  }
}
