/** Reversal of the low bits of an index and its reversed-carry increment. */
module BitReversal {
  import opened CArith

  /** The number whose b low bits are those of v in the opposite order. */
  function Rev(b: nat, v: nat): nat {
    if b == 0 then 0 else (if v % 2 == 1 then Pow2(b - 1) else 0) + Rev(b - 1, v / 2)
  }

  lemma {:induction false} RevBound(b: nat, v: nat)
    ensures Rev(b, v) < Pow2(b)
  {
    if b > 0 { RevBound(b - 1, v / 2); }
  }

  /** Peeling the top bit instead of the bottom one. */
  lemma {:induction false} RevTopBit(b: nat, v: nat)
    requires v < Pow2(b)
    ensures Rev(b + 1, v) == 2 * Rev(b, v)
    ensures Rev(b + 1, v + Pow2(b)) == 2 * Rev(b, v) + 1
  {
    if b > 0 {
      var h := Pow2(b - 1);
      assert (v + 2 * h) / 2 == v / 2 + h && (v + 2 * h) % 2 == v % 2;
      RevTopBit(b - 1, v / 2);
    }
  }

  lemma {:induction false} RevInvolution(b: nat, v: nat)
    requires v < Pow2(b)
    ensures Rev(b, Rev(b, v)) == v
  {
    if b > 0 {
      RevBound(b - 1, v / 2);
      RevTopBit(b - 1, Rev(b - 1, v / 2));
      RevInvolution(b - 1, v / 2);
    }
  }

  lemma RevHalves(b: nat, q: nat)
    ensures Rev(b + 1, 2 * q) == Rev(b, q)
    ensures Rev(b + 1, 2 * q + 1) == Pow2(b) + Rev(b, q)
  {
    assert (2 * q + 1) / 2 == q && (2 * q + 1) % 2 == 1;
  }

  lemma {:induction false} RevZero(b: nat)
    ensures Rev(b, 0) == 0
  {
    if b > 0 { RevZero(b - 1); }
  }
}
