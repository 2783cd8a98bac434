/** C's bitwise operators on unsigned words, as functions on natural numbers. */
module Bits {

  function Pow2(n: nat): (r: nat)
    ensures r > 0
  {
    if n == 0 then 1 else 2 * Pow2(n - 1)
  }

  /** Bit `j` of `x`, counted from the least significant. */
  predicate Bit(x: nat, j: nat) {
    if j == 0 then x % 2 == 1 else Bit(x / 2, j - 1)
  }

  /** `x | y` */
  function BitOr(x: nat, y: nat): nat {
    if x == 0 && y == 0 then 0
    else 2 * BitOr(x / 2, y / 2) + if x % 2 == 1 || y % 2 == 1 then 1 else 0
  }

  /** `x & y` */
  function BitAnd(x: nat, y: nat): nat {
    if x == 0 && y == 0 then 0
    else 2 * BitAnd(x / 2, y / 2) + if x % 2 == 1 && y % 2 == 1 then 1 else 0
  }

  /** `x & ~y` */
  function BitAndNot(x: nat, y: nat): nat
    decreases x
  {
    if x == 0 then 0
    else 2 * BitAndNot(x / 2, y / 2) + if x % 2 == 1 && y % 2 == 0 then 1 else 0
  }

  lemma {:induction false} ZeroBit(j: nat)
    ensures !Bit(0, j)
  {
    if j > 0 { ZeroBit(j - 1); }
  }

  lemma OrHalves(x: nat, y: nat)
    ensures BitOr(x, y) / 2 == BitOr(x / 2, y / 2)
    ensures BitOr(x, y) % 2 == if x % 2 == 1 || y % 2 == 1 then 1 else 0
  {
  }

  lemma AndHalves(x: nat, y: nat)
    ensures BitAnd(x, y) / 2 == BitAnd(x / 2, y / 2)
    ensures BitAnd(x, y) % 2 == if x % 2 == 1 && y % 2 == 1 then 1 else 0
  {
  }

  lemma AndNotHalves(x: nat, y: nat)
    ensures BitAndNot(x, y) / 2 == BitAndNot(x / 2, y / 2)
    ensures BitAndNot(x, y) % 2 == if x % 2 == 1 && y % 2 == 0 then 1 else 0
  {
  }

  lemma {:induction false} OrBit(x: nat, y: nat, j: nat)
    ensures Bit(BitOr(x, y), j) == (Bit(x, j) || Bit(y, j))
  {
    hide BitOr;
    OrHalves(x, y);
    if j > 0 { OrBit(x / 2, y / 2, j - 1); }
  }

  lemma {:induction false} AndNotBit(x: nat, y: nat, j: nat)
    ensures Bit(BitAndNot(x, y), j) == (Bit(x, j) && !Bit(y, j))
  {
    hide BitAndNot;
    AndNotHalves(x, y);
    if j > 0 { AndNotBit(x / 2, y / 2, j - 1); }
  }

  lemma {:induction false} AndBit(x: nat, y: nat, j: nat)
    ensures Bit(BitAnd(x, y), j) == (Bit(x, j) && Bit(y, j))
  {
    hide BitAnd;
    AndHalves(x, y);
    if j > 0 { AndBit(x / 2, y / 2, j - 1); }
  }

  lemma NextDigit(x: nat, j: nat)
    requires j >= 4
    ensures Bit(x, j) == Bit(x / 16, j - 4)
  {
    assert Bit(x, j) == Bit(x / 2, j - 1);
    assert Bit(x / 2, j - 1) == Bit(x / 2 / 2, j - 2);
    assert Bit(x / 2 / 2, j - 2) == Bit(x / 2 / 2 / 2, j - 3);
    assert x / 2 / 2 / 2 / 2 == x / 16;
  }

  /** The bits of a hexadecimal digit. */
  lemma DigitBits(x: nat, j: nat)
    requires j < 4
    ensures Bit(x, j) <==> (if j == 0 then x else if j == 1 then x / 2 else if j == 2 then x / 4 else x / 8) % 2 == 1
  {
    if j > 0 { assert Bit(x, j) == Bit(x / 2, j - 1); }
    if j > 1 { assert Bit(x / 2, j - 1) == Bit(x / 2 / 2, j - 2) && x / 2 / 2 == x / 4; }
    if j > 2 { assert Bit(x / 4, j - 2) == Bit(x / 4 / 2, j - 3) && x / 4 / 2 == x / 8; }
  }

  lemma {:induction false} Pow2Bit(i: nat, j: nat)
    ensures Bit(Pow2(i), j) == (i == j)
  {
    if i == 0 {
      if j > 0 { ZeroBit(j - 1); }
    } else if j > 0 {
      Pow2Bit(i - 1, j - 1);
    }
  }

  lemma {:induction false} OrBound(x: nat, y: nat, n: nat)
    requires x < Pow2(n) && y < Pow2(n)
    ensures BitOr(x, y) < Pow2(n)
  {
    if n > 0 { OrBound(x / 2, y / 2, n - 1); }
  }

  lemma {:induction false} AndNotBound(x: nat, y: nat)
    ensures BitAndNot(x, y) <= x
  {
    if x > 0 { AndNotBound(x / 2, y / 2); }
  }

  /** Or-ing flags into the clear low bits of an aligned address is addition. */
  lemma {:induction false} OrAligned(x: nat, y: nat, k: nat)
    requires x % Pow2(k) == 0 && y < Pow2(k)
    ensures BitOr(x, y) == x + y
    decreases k, x
  {
    if k == 0 {
      OrZero(x);
    } else {
      var q := x / Pow2(k);
      assert x == 2 * (q * Pow2(k - 1)) by { assert x == q * Pow2(k); }
      ModOfProduct(q, Pow2(k - 1));
      OrAligned(x / 2, y / 2, k - 1);
    }
  }

  lemma ModOfProduct(q: nat, p: nat)
    requires p > 0
    ensures q * p % p == 0
  {
    UniqueRemainder(q * p, p, q, 0);
  }

  lemma {:induction false} OrZero(x: nat)
    ensures BitOr(x, 0) == x
  {
    if x > 0 { OrZero(x / 2); }
  }

  lemma {:induction false} AndZero(x: nat)
    ensures BitAnd(x, 0) == 0
  {
    if x > 0 { AndZero(x / 2); }
  }

  /** Testing bit `i` with `x & (1 << i)`. */
  lemma {:induction false} AndPow2(x: nat, i: nat)
    ensures BitAnd(x, Pow2(i)) == if Bit(x, i) then Pow2(i) else 0
  {
    if i == 0 {
      AndZero(x / 2);
    } else {
      AndPow2(x / 2, i - 1);
    }
  }

  /** Masking with `(1 << k) - 1` keeps the low `k` bits. */
  lemma {:induction false} AndMask(x: nat, k: nat)
    ensures BitAnd(x, Pow2(k) - 1) == x % Pow2(k)
  {
    hide BitAnd;
    if k == 0 {
      AndZero(x);
      assert x % 1 == 0;
    } else {
      var p := Pow2(k - 1);
      AndMask(x / 2, k - 1);
      AndHalves(x, 2 * p - 1);
      OddHalf(p);
      DoubleMod(x, p);
    }
  }

  lemma OddHalf(p: nat)
    requires p > 0
    ensures (2 * p - 1) / 2 == p - 1 && (2 * p - 1) % 2 == 1
  {
  }

  lemma DoubleMod(x: nat, p: nat)
    requires p > 0
    ensures x % (2 * p) == 2 * (x / 2 % p) + x % 2
  {
    var q, r := x / 2 / p, x / 2 % p;
    assert x / 2 == q * p + r;
    assert x == q * (2 * p) + (2 * r + x % 2) by { assert q * (2 * p) == 2 * (q * p); }
    UniqueRemainder(x, 2 * p, q, 2 * r + x % 2);
  }

  lemma {:induction false} AtLeastFactor(k: nat, p: nat)
    requires k > 0
    ensures k * p >= p
  {
    if k > 1 {
      AtLeastFactor(k - 1, p);
      assert k * p == (k - 1) * p + p;
    }
  }

  lemma UniqueRemainder(x: nat, p: nat, q: nat, r: nat)
    requires p > 0 && r < p && x == q * p + r
    ensures x % p == r && x / p == q
  {
    var q', r' := x / p, x % p;
    assert x == q' * p + r';
    SameQuotient(p, q, r, q', r');
  }

  lemma SameQuotient(p: nat, q: nat, r: nat, q': nat, r': nat)
    requires r < p && r' < p && q * p + r == q' * p + r'
    ensures q == q' && r == r'
  {
    if q' < q {
      assert (q - q') * p == q * p - q' * p;
      AtLeastFactor(q - q', p);
    } else if q < q' {
      assert (q' - q) * p == q' * p - q * p;
      AtLeastFactor(q' - q, p);
    }
  }

  /** `e |= flags` on an aligned address. */
  lemma OrFlags(f: nat, flags: nat)
    requires flags < 8
    ensures BitOr(4096 * f, flags) == 4096 * f + flags
  {
    assert Pow2(12) == 4096 by { assert Pow2(4) == 16; assert Pow2(8) == 256; }
    OrAligned(4096 * f, flags, 12);
  }

  lemma LowBit(e: nat)
    ensures BitAnd(e, 1) != 0 <==> e % 2 == 1
  {
    AndPow2(e, 0);
  }
}
