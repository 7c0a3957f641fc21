/** Single bits of a 32-bit register. */
module Bits {

  predicate On(w: bv32, m: bv32) {
    w & m != 0
  }

  function TurnOn(w: bv32, m: bv32): bv32 {
    w | m
  }

  function TurnOff(w: bv32, m: bv32): bv32 {
    w & !m
  }

  predicate OneBit(m: bv32) {
    m != 0 && m & (m - 1) == 0
  }

  lemma TurnedOn(w: bv32, a: bv32, b: bv32)
    requires OneBit(a) && OneBit(b)
    ensures On(TurnOn(w, a), b) <==> a == b || On(w, b)
  {
    OnOr(w, a, b);
  }

  lemma OnOr(w: bv32, a: bv32, b: bv32)
    requires a != 0 && a & (a - 1) == 0 && b != 0 && b & (b - 1) == 0
    ensures (w | a) & b != 0 <==> a == b || w & b != 0
  {
  }

  lemma TurnedOff(w: bv32, a: bv32, b: bv32)
    requires OneBit(a) && OneBit(b)
    ensures On(TurnOff(w, a), b) <==> a != b && On(w, b)
  {
    OnAndNot(w, a, b);
  }

  lemma OnAndNot(w: bv32, a: bv32, b: bv32)
    requires a != 0 && a & (a - 1) == 0 && b != 0 && b & (b - 1) == 0
    ensures (w & !a) & b != 0 <==> a != b && w & b != 0
  {
  }

  lemma TurnOnCommutes(w: bv32, a: bv32, b: bv32)
    ensures TurnOn(TurnOn(w, a), b) == TurnOn(TurnOn(w, b), a)
  {
    hide TurnOn;
    TurnOnTwo(w, a, b, TurnOn(w, a), TurnOn(w, b));
  }

  lemma TurnOnTwo(w: bv32, a: bv32, b: bv32, x: bv32, y: bv32)
    requires x == TurnOn(w, a) && y == TurnOn(w, b)
    ensures TurnOn(x, b) == TurnOn(y, a)
  {
    OrCommutes(w, a, b);
  }

  lemma OrCommutes(w: bv32, a: bv32, b: bv32)
    ensures w | a | b == w | b | a
  {
  }

  lemma NothingOn(m: bv32)
    ensures !On(0, m)
  {
  }

  /** 1 << k. */
  function Bit(k: bv32): (m: bv32)
    requires k < 32
    ensures OneBit(m)
  {
    1 << k
  }

  /** It is 2^k, the bit that has k bits below it. */
  lemma BitIs(k: bv32, w: bv32)
    requires k < 32
    ensures Bit(0) == 1 && (k > 0 ==> Bit(k) == 2 * Bit(k - 1))
    ensures On(w, Bit(k)) <==> (w >> k) & 1 == 1
  {
  }

  lemma BitInjective(j: bv32, k: bv32)
    requires j < 32 && k < 32 && Bit(j) == Bit(k)
    ensures j == k
  {
  }
}
