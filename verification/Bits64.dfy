/** Bitwise operators on unsigned words.

A `uint64` is modelled by its value, a natural number below 2^64, and the C
operators `|`, `&`, `1 << k` and `~0` by their definitions on binary digits.
The lemmas say what each operator does to bit `k`; nothing else in the project
looks at the digits. */
module Bits64 {

  const WORD_BITS: nat := 64

  /** The digit of weight 2^k. */
  predicate Bit(m: nat, k: nat) {
    if k == 0 then m % 2 == 1 else Bit(m / 2, k - 1)
  }

  /** `uint64{1} << k` */
  function Shl1(k: nat): (r: nat)
    ensures r > 0
  {
    if k == 0 then 1 else 2 * Shl1(k - 1)
  }

  /** `a | b` */
  function Or(a: nat, b: nat): nat {
    if a == 0 then b
    else if b == 0 then a
    else 2 * Or(a / 2, b / 2) + (if a % 2 == 1 || b % 2 == 1 then 1 else 0)
  }

  /** `a & b` */
  function And(a: nat, b: nat): nat {
    if a == 0 || b == 0 then 0
    else 2 * And(a / 2, b / 2) + (if a % 2 == 1 && b % 2 == 1 then 1 else 0)
  }

  /** `~(uint64)0` */
  function AllOnes(): nat {
    Shl1(WORD_BITS) - 1
  }

  predicate IsWord(m: nat) {
    m < Shl1(WORD_BITS)
  }

  lemma {:induction false} ZeroBit(k: nat)
    ensures !Bit(0, k)
  {
    if k > 0 { ZeroBit(k - 1); }
  }

  lemma OrHalves(a: nat, b: nat)
    requires a > 0 && b > 0
    ensures Or(a, b) / 2 == Or(a / 2, b / 2)
    ensures Or(a, b) % 2 == 1 <==> a % 2 == 1 || b % 2 == 1
  {
    var half := Or(a / 2, b / 2);
    var low := if a % 2 == 1 || b % 2 == 1 then 1 else 0;
    assert Or(a, b) == 2 * half + low;
  }

  lemma {:induction false} OrBit(a: nat, b: nat, k: nat)
    ensures Bit(Or(a, b), k) <==> Bit(a, k) || Bit(b, k)
  {
    if a == 0 || b == 0 {
      ZeroBit(k);
    } else {
      OrHalves(a, b);
      if k > 0 { OrBit(a / 2, b / 2, k - 1); }
    }
  }

  lemma {:induction false} Shl1Bit(i: nat, k: nat)
    ensures Bit(Shl1(i), k) <==> i == k
  {
    if i == 0 {
      if k > 0 { ZeroBit(k - 1); }
    } else if k > 0 {
      Shl1Bit(i - 1, k - 1);
    }
  }

  /** Or-ing in a one-bit word sets that bit and no other. */
  lemma SetBit(m: nat, i: nat, k: nat)
    ensures Bit(Or(m, Shl1(i)), k) <==> Bit(m, k) || i == k
  {
    OrBit(m, Shl1(i), k);
    Shl1Bit(i, k);
  }

  /** The C idiom `if (m & (1 << k))` tests bit k. */
  lemma {:induction false} TestBit(m: nat, k: nat)
    ensures And(m, Shl1(k)) != 0 <==> Bit(m, k)
  {
    if m == 0 {
      ZeroBit(k);
    } else if k == 0 {
      assert And(m / 2, 0) == 0;
    } else {
      TestBit(m / 2, k - 1);
    }
  }

  /** The C idiom `(1 << n) - 1` has exactly the n low bits set. */
  lemma {:induction false} LowOnes(n: nat, k: nat)
    ensures Bit(Shl1(n) - 1, k) <==> k < n
  {
    if n == 0 {
      ZeroBit(k);
    } else {
      assert (Shl1(n) - 1) / 2 == Shl1(n - 1) - 1;
      if k > 0 { LowOnes(n - 1, k - 1); }
    }
  }

  /** Bits decide a word. */
  lemma {:induction false} SameBits(a: nat, b: nat)
    requires forall k: nat :: Bit(a, k) == Bit(b, k)
    ensures a == b
    decreases a + b
  {
    assert Bit(a, 0) == Bit(b, 0);
    if a > 0 || b > 0 {
      forall k: nat ensures Bit(a / 2, k) == Bit(b / 2, k) {
        assert Bit(a, k + 1) == Bit(b, k + 1);
      }
      SameBits(a / 2, b / 2);
    }
  }

  lemma {:induction false} OrBound(a: nat, b: nat, n: nat)
    requires a < Shl1(n) && b < Shl1(n)
    ensures Or(a, b) < Shl1(n)
  {
    if a > 0 && b > 0 { OrBound(a / 2, b / 2, n - 1); }
  }

  lemma {:induction false} Shl1Less(i: nat, n: nat)
    requires i < n
    ensures Shl1(i) < Shl1(n)
  {
    if i > 0 { Shl1Less(i - 1, n - 1); }
  }
}
