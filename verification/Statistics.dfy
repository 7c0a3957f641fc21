/** bnx2_save_stats: before the chip is reset, its counters are added to those saved
    earlier, so that what is reported does not go back. */
module Statistics {
  import opened Modulo

  type U32 = x: int | 0 <= x < 0x1_0000_0000

  const WIDE := 20                 // words of the ten 64-bit counters
  const TWO64 := 0x1_0000_0000_0000_0000

  /** The 64-bit counter whose high word is word i. */
  function Wide(stats: seq<U32>, i: nat): nat
    requires i + 1 < |stats|
  {
    0x1_0000_0000 * stats[i] as int + stats[i + 1] as int
  }

  function Plus(a: int, b: int): U32 {
    (a + b) % 0x1_0000_0000
  }

  /** `now` is `was` with the counters of `hw` added. */
  predicate Added(was: seq<U32>, hw: seq<U32>, now: seq<U32>) {
    && |was| == |hw| == |now| >= WIDE
    && (forall i :: 0 <= i < WIDE && i % 2 == 0 ==> Wide(now, i) == (Wide(was, i) + Wide(hw, i)) % TWO64)
    && (forall i :: WIDE <= i < |now| ==> now[i] as int == (was[i] as int + hw[i] as int) % 0x1_0000_0000)
  }

  /** The addition of two counters by words, with the carry. */
  lemma Carry(ah: U32, al: U32, bh: U32, bl: U32)
    ensures var hi := ah + bh + if al + bl > 0xFFFF_FFFF then 1 else 0;
            0x1_0000_0000 * (hi % 0x1_0000_0000) + (al + bl) % 0x1_0000_0000 ==
            (0x1_0000_0000 * ah + al + (0x1_0000_0000 * bh + bl)) % TWO64
  {
  }

  /** bnx2_save_stats. */
  method SaveStats(hwStats: array<U32>, tempStats: array<U32>)
    requires hwStats != tempStats && hwStats.Length == tempStats.Length >= WIDE
    modifies tempStats
    ensures Added(old(tempStats[..]), hwStats[..], tempStats[..])
  {
    hide Wide;
    ghost var was := tempStats[..];
    var i := 0;
    while i < WIDE
      invariant 0 <= i <= WIDE && i % 2 == 0
      invariant forall k :: 0 <= k < i && k % 2 == 0 ==>
                  Wide(tempStats[..], k) == (Wide(was, k) + Wide(hwStats[..], k)) % TWO64
      invariant forall k :: i <= k < tempStats.Length ==> tempStats[k] == was[k]
    {
      ghost var now := tempStats[..];
      var hi := tempStats[i] as int + hwStats[i] as int;
      var lo := tempStats[i + 1] as int + hwStats[i + 1] as int;
      if lo > 0xFFFF_FFFF {
        hi := hi + 1;
      }
      AddedAt(was, hwStats[..], i, hi, lo);
      tempStats[i] := hi % 0x1_0000_0000;
      tempStats[i + 1] := lo % 0x1_0000_0000;
      Kept(now, tempStats[..], i, hi % 0x1_0000_0000, lo % 0x1_0000_0000);
      i := i + 2;
    }
    ghost var wide := tempStats[..];
    while i < tempStats.Length
      invariant WIDE <= i <= tempStats.Length
      invariant forall k :: 0 <= k < WIDE ==> tempStats[k] == wide[k]
      invariant forall k :: WIDE <= k < i ==> tempStats[k] == Plus(was[k], hwStats[k])
      invariant forall k :: i <= k < tempStats.Length ==> tempStats[k] == was[k]
    {
      tempStats[i] := Plus(tempStats[i], hwStats[i]);
      i := i + 1;
    }
    SameWide(wide, tempStats[..]);
  }

  lemma SameWide(a: seq<U32>, b: seq<U32>)
    requires |a| == |b| >= WIDE && forall k :: 0 <= k < WIDE ==> a[k] == b[k]
    ensures forall k :: 0 <= k < WIDE && k % 2 == 0 ==> Wide(b, k) == Wide(a, k)
  {
  }

  lemma AddedAt(was: seq<U32>, hw: seq<U32>, i: nat, hi: int, lo: int)
    requires i + 1 < |was| == |hw| && lo == was[i + 1] as int + hw[i + 1] as int
    requires hi == was[i] as int + hw[i] as int + if lo > 0xFFFF_FFFF then 1 else 0
    ensures 0x1_0000_0000 * (hi % 0x1_0000_0000) + lo % 0x1_0000_0000 == (Wide(was, i) + Wide(hw, i)) % TWO64
  {
    Carry(was[i], was[i + 1], hw[i], hw[i + 1]);
  }

  lemma Kept(was: seq<U32>, now: seq<U32>, i: nat, hi: U32, lo: U32)
    requires i + 1 < |was| && i % 2 == 0 && now == was[i := hi][i + 1 := lo]
    ensures Wide(now, i) == 0x1_0000_0000 * hi + lo
    ensures forall k :: 0 <= k < i && k % 2 == 0 ==> Wide(now, k) == Wide(was, k)
  {
  }

  /** Saving again and again: `temps` are the saved counters after each round, in
      which the live ones had reached `lives` before they were cleared. */
  ghost predicate Rounds(temps: seq<seq<U32>>, lives: seq<seq<U32>>) {
    && |temps| == |lives| + 1 && (forall k :: 0 <= k < |temps| ==> |temps[k]| == |temps[0]|)
    && forall k :: 0 <= k < |lives| ==> Added(temps[k], lives[k], temps[k + 1])
  }

  ghost function Sum(lives: seq<seq<U32>>, i: nat): nat
    requires forall k :: 0 <= k < |lives| ==> i + 1 < |lives[k]|
  {
    if lives == [] then 0 else Sum(lives[..|lives| - 1], i) + Wide(lives[|lives| - 1], i)
  }

  /** Nothing is lost over any number of rounds: what is reported, saved and live
      together, is all that the chip ever counted. */
  lemma {:induction false} TotalsConserved(temps: seq<seq<U32>>, lives: seq<seq<U32>>, live: seq<U32>, i: nat)
    requires Rounds(temps, lives) && i < WIDE && i % 2 == 0 && |temps[0]| == |live| >= WIDE
    ensures |temps[|lives|]| == |live| && forall k :: 0 <= k < |lives| ==> i + 1 < |lives[k]|
    ensures (Wide(temps[|lives|], i) + Wide(live, i)) % TWO64 ==
            (Wide(temps[0], i) + Sum(lives, i) + Wide(live, i)) % TWO64
  {
    hide Wide;
    if lives != [] {
      var l := |lives| - 1;
      assert Added(temps[l], lives[l], temps[l + 1]);
      assert Rounds(temps[..l + 1], lives[..l]);
      TotalsConserved(temps[..l + 1], lives[..l], lives[l], i);
      ModAdd(Wide(temps[0], i) + Sum(lives[..l], i) + Wide(lives[l], i), Wide(live, i), TWO64);
    }
  }

  ghost function NarrowSum(lives: seq<seq<U32>>, i: nat): nat
    requires forall k :: 0 <= k < |lives| ==> i < |lives[k]|
  {
    if lives == [] then 0 else NarrowSum(lives[..|lives| - 1], i) + lives[|lives| - 1][i] as int
  }

  /** The same for the counters of one word. */
  lemma {:induction false} NarrowConserved(temps: seq<seq<U32>>, lives: seq<seq<U32>>, live: seq<U32>, i: nat)
    requires Rounds(temps, lives) && WIDE <= i < |temps[0]| == |live|
    ensures |temps[|lives|]| == |live| && forall k :: 0 <= k < |lives| ==> i < |lives[k]|
    ensures (temps[|lives|][i] as int + live[i] as int) % 0x1_0000_0000 ==
            (temps[0][i] as int + NarrowSum(lives, i) + live[i] as int) % 0x1_0000_0000
  {
    if lives != [] {
      var l := |lives| - 1;
      assert Added(temps[l], lives[l], temps[l + 1]);
      assert Rounds(temps[..l + 1], lives[..l]);
      NarrowConserved(temps[..l + 1], lives[..l], lives[l], i);
      ModAdd(temps[0][i] as int + NarrowSum(lives[..l], i) + lives[l][i] as int, live[i] as int, 0x1_0000_0000);
    }
  }
}
