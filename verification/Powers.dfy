/** Powers of two, and the bit operations the sources spell with shifts and masks. */
module Powers {
  function Pow2(k: nat): (r: nat)
    ensures r > 0
  {
    if k == 0 then 1 else 2 * Pow2(k - 1)
  }

  lemma {:induction false} Pow2Add(a: nat, b: nat)
    ensures Pow2(a + b) == Pow2(a) * Pow2(b)
  {
    if a > 0 {
      Pow2Add(a - 1, b);
      assert 2 * Pow2(a - 1) * Pow2(b) == 2 * (Pow2(a - 1) * Pow2(b));
    }
  }

  lemma Pow2Zero()
    ensures Pow2(0) == 1
  {
  }

  lemma Pow2Succ(k: nat)
    ensures Pow2(k + 1) == 2 * Pow2(k)
  {
  }

  lemma {:induction false} Pow2Mono(a: nat, b: nat)
    requires a <= b
    ensures Pow2(a) <= Pow2(b)
    decreases b
  {
    if a < b {
      Pow2Mono(a, b - 1);
    }
  }

  lemma Pow2Word()
    ensures Pow2(8) == 0x100 && Pow2(16) == 0x1_0000 && Pow2(32) == 0x1_0000_0000
  {
    Pow2Add(8, 8);
    Pow2Add(16, 16);
  }

  /** Bitwise OR of the low `bits` bits. */
  function BitOr(a: nat, b: nat, bits: nat): nat {
    if bits == 0 then 0
    else (if a % 2 == 1 || b % 2 == 1 then 1 else 0) + 2 * BitOr(a / 2, b / 2, bits - 1)
  }

  lemma {:induction false} BitOrBound(a: nat, b: nat, bits: nat)
    ensures BitOr(a, b, bits) < Pow2(bits)
  {
    if bits > 0 {
      BitOrBound(a / 2, b / 2, bits - 1);
    }
  }

  lemma {:induction false} BitOrZero(a: nat, bits: nat)
    requires a < Pow2(bits)
    ensures BitOr(a, 0, bits) == a
  {
    if bits > 0 {
      BitOrZero(a / 2, bits - 1);
    }
  }
}
