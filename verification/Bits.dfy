/** Single-bit tests and updates of machine words, on their numeric values:
    `w & (1 << k)` and `w |= (1 << k)`. */
module Bits {
  import opened Arithmetic

  function Pow2(n: nat): (p: nat)
    ensures p >= 1
  {
    if n == 0 then 1 else 2 * Pow2(n - 1)
  }

  /** `(w & (1 << k)) != 0` */
  predicate Bit(w: nat, k: nat) {
    if k == 0 then w % 2 == 1 else Bit(w / 2, k - 1)
  }

  /** `w | (1 << k)` */
  function SetBit(w: nat, k: nat): nat {
    if k == 0 then (if w % 2 == 1 then w else w + 1)
    else w % 2 + 2 * SetBit(w / 2, k - 1)
  }

  /** Setting a bit sets that bit and no other. */
  lemma {:induction false} BitOfSetBit(w: nat, k: nat, j: nat)
    ensures Bit(SetBit(w, k), j) <==> j == k || Bit(w, j)
  {
    if k > 0 {
      assert SetBit(w, k) % 2 == w % 2 && SetBit(w, k) / 2 == SetBit(w / 2, k - 1);
      if j > 0 { BitOfSetBit(w / 2, k - 1, j - 1); }
    } else if j > 0 {
      assert SetBit(w, k) / 2 == w / 2;
    }
  }

  /** The update is an addition of 2^k when the bit was clear, and nothing otherwise. */
  lemma {:induction false} SetBitAdds(w: nat, k: nat)
    ensures SetBit(w, k) == if Bit(w, k) then w else w + Pow2(k)
  {
    if k > 0 { SetBitAdds(w / 2, k - 1); }
  }

  /** The test reads the digit of weight 2^k. */
  lemma {:induction false} BitIsDigit(w: nat, k: nat)
    ensures Bit(w, k) <==> w / Pow2(k) % 2 == 1
  {
    if k > 0 {
      BitIsDigit(w / 2, k - 1);
      DivDiv(w, 2, Pow2(k - 1));
    } else {
      assert w / Pow2(0) == w;
    }
  }

  lemma {:induction false} SetBitBound(w: nat, k: nat, n: nat)
    requires k < n && w < Pow2(n)
    ensures SetBit(w, k) < Pow2(n)
  {
    var p := Pow2(n - 1);
    assert Pow2(n) == 2 * p && w / 2 < p;
    if k > 0 {
      SetBitBound(w / 2, k - 1, n - 1);
      assert SetBit(w, k) == w % 2 + 2 * SetBit(w / 2, k - 1);
    }
  }

  lemma {:induction false} FullWord(n: nat, j: nat)
    requires j < n
    ensures Bit(Pow2(n) - 1, j)
  {
    var w := Pow2(n) - 1;
    assert w / 2 == Pow2(n - 1) - 1 && w % 2 == 1;
    if j > 0 { FullWord(n - 1, j - 1); }
  }

  lemma {:induction false} ClearBit(w: nat, n: nat) returns (j: nat)
    requires w < Pow2(n) - 1
    ensures j < n && !Bit(w, j)
  {
    if w % 2 == 0 {
      j := 0;
    } else {
      j := ClearBit(w / 2, n - 1);
      j := j + 1;
    }
  }

  /** An n-bit word has all its bits set exactly when it is 2^n - 1. */
  lemma AllBitsSet(w: nat, n: nat)
    requires w < Pow2(n)
    ensures (forall j: nat | j < n :: Bit(w, j)) <==> w == Pow2(n) - 1
  {
    if w == Pow2(n) - 1 {
      forall j: nat | j < n ensures Bit(w, j) { FullWord(n, j); }
    } else {
      var j := ClearBit(w, n);
    }
  }

  /** Setting a low bit leaves the high part of a word alone. */
  lemma {:induction false} SetBitKeepsHigh(w: nat, k: nat, n: nat)
    requires k < n
    ensures SetBit(w, k) / Pow2(n) == w / Pow2(n)
  {
    DivDiv(w, 2, Pow2(n - 1));
    DivDiv(SetBit(w, k), 2, Pow2(n - 1));
    if k > 0 {
      assert SetBit(w, k) / 2 == SetBit(w / 2, k - 1);
      SetBitKeepsHigh(w / 2, k - 1, n - 1);
    } else {
      assert SetBit(w, k) / 2 == w / 2;
    }
  }
}
