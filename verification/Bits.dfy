/**
 Words of `n` bits as numbers below 2^n, their bits, and the bitwise operators. Tables of 64
 words in "vertical" organization.
 */
module Bits {

  function Pow2(n: nat): (p: nat)
    ensures p > 0
  {
    if n == 0 then 1 else 2 * Pow2(n - 1)
  }

  predicate Bit(w: nat, k: nat) {
    if k == 0 then w % 2 == 1 else Bit(w / 2, k - 1)
  }

  /** `a | b` on `n` bits. */
  function Or(n: nat, a: nat, b: nat): (r: nat)
    ensures r < Pow2(n)
  {
    if n == 0 then 0 else 2 * Or(n - 1, a / 2, b / 2) + if a % 2 == 1 || b % 2 == 1 then 1 else 0
  }

  /** `a & b` on `n` bits. */
  function And(n: nat, a: nat, b: nat): (r: nat)
    ensures r < Pow2(n)
  {
    if n == 0 then 0 else 2 * And(n - 1, a / 2, b / 2) + if a % 2 == 1 && b % 2 == 1 then 1 else 0
  }

  /** `~a` on `n` bits. */
  function Not(n: nat, a: nat): (r: nat)
    ensures r < Pow2(n)
  {
    if n == 0 then 0 else 2 * Not(n - 1, a / 2) + if a % 2 == 1 then 0 else 1
  }

  /** `a << j`, without a limit on the width. */
  function Shl(a: nat, j: nat): nat { if j == 0 then a else 2 * Shl(a, j - 1) }

  /** `a >> j`. */
  function Shr(a: nat, j: nat): nat { if j == 0 then a else Shr(a / 2, j - 1) }

  lemma {:induction false} BitOr(n: nat, a: nat, b: nat, k: nat)
    requires k < n
    ensures Bit(Or(n, a, b), k) <==> Bit(a, k) || Bit(b, k)
  {
    if k > 0 { BitOr(n - 1, a / 2, b / 2, k - 1); }
  }

  lemma {:induction false} BitAnd(n: nat, a: nat, b: nat, k: nat)
    requires k < n
    ensures Bit(And(n, a, b), k) <==> Bit(a, k) && Bit(b, k)
  {
    if k > 0 { BitAnd(n - 1, a / 2, b / 2, k - 1); }
  }

  lemma {:induction false} BitNot(n: nat, a: nat, k: nat)
    requires k < n
    ensures Bit(Not(n, a), k) <==> !Bit(a, k)
  {
    if k > 0 { BitNot(n - 1, a / 2, k - 1); }
  }

  lemma {:induction false} BitZero(k: nat)
    ensures !Bit(0, k)
  {
    if k > 0 { BitZero(k - 1); }
  }

  lemma {:induction false} BitShl(a: nat, j: nat, k: nat)
    ensures Bit(Shl(a, j), k) <==> k >= j && Bit(a, k - j)
  {
    if j > 0 && k > 0 { BitShl(a, j - 1, k - 1); }
  }

  lemma {:induction false} BitShr(a: nat, j: nat, k: nat)
    ensures Bit(Shr(a, j), k) <==> Bit(a, j + k)
  {
    if j > 0 { BitShr(a / 2, j - 1, k); }
  }

  /** A single bit. */
  lemma {:induction false} BitOfOne(k: nat)
    ensures Bit(1, k) <==> k == 0
  {
    if k > 0 { BitZero(k - 1); }
  }

  lemma BitOne(j: nat, k: nat)
    ensures Bit(Shl(1, j), k) <==> k == j
  {
    BitShl(1, j, k);
    if k >= j { BitOfOne(k - j); }
  }

  lemma {:induction false} BitsBelow(j: nat, k: nat)
    ensures Shl(1, j) >= 1
    ensures Bit(Shl(1, j) - 1, k) <==> k < j
  {
    if j == 0 {
      BitZero(k);
    } else if k == 0 {
      BitsBelow(j - 1, 0);
    } else {
      BitsBelow(j - 1, k - 1);
      assert (Shl(1, j) - 1) / 2 == Shl(1, j - 1) - 1;
    }
  }

  /** Two bits at a distance of 16. */
  const PAIR := 0x10001

  lemma {:induction false} BitOfPowers(j: nat, k: nat)
    ensures Bit(Pow2(j), k) <==> k == j
  {
    if j == 0 { BitOfOne(k); } else if k > 0 { BitOfPowers(j - 1, k - 1); }
  }

  lemma PowersOfTwo()
    ensures Pow2(15) == 0x8000 && Pow2(16) == 0x1_0000 && Pow2(32) == 0x1_0000_0000
  {
    assert Pow2(4) == 0x10;
    assert Pow2(8) == 0x100;
    assert Pow2(12) == 0x1000;
    assert Pow2(15) == 0x8000;
    assert Pow2(20) == 0x10_0000;
    assert Pow2(24) == 0x100_0000;
    assert Pow2(28) == 0x1000_0000;
  }

  lemma BitOfPair(k: nat)
    ensures Bit(PAIR, k) <==> k == 0 || k == 16
  {
    PowersOfTwo();
    if k > 0 { BitOfPowers(15, k - 1); }
  }

  lemma BitPair(j: nat, k: nat)
    ensures Bit(Shl(PAIR, j), k) <==> k == j || k == j + 16
  {
    BitShl(PAIR, j, k);
    if k >= j { BitOfPair(k - j); }
  }

  /** Masking with a single bit. */
  lemma {:induction false} AndPower(n: nat, w: nat, j: nat)
    requires j < n
    ensures And(n, w, Pow2(j)) == if Bit(w, j) then Pow2(j) else 0
  {
    if j == 0 {
      AndZero(n - 1, w / 2);
    } else {
      AndPower(n - 1, w / 2, j - 1);
    }
  }

  lemma {:induction false} AndZero(n: nat, w: nat)
    ensures And(n, w, 0) == 0
  {
    if n > 0 { AndZero(n - 1, w / 2); }
  }

  lemma {:induction false} ShlOne(j: nat)
    ensures Shl(1, j) == Pow2(j)
  {
    if j > 0 { ShlOne(j - 1); }
  }

  /** Testing a bit with a mask. */
  lemma TestBit(w: nat, j: nat)
    requires j < 32
    ensures And(32, w, Shl(1, j)) != 0 <==> Bit(w, j)
  {
    ShlOne(j);
    AndPower(32, w, j);
  }

  /** Reading the pair of bits `j` and `j + 16`. */
  lemma ReadPair(w: nat, j: nat)
    requires j < 16
    ensures var t := And(32, Shr(w, j), PAIR);
            && (t <= 1 <==> !Bit(w, j + 16))
            && (t <= 1 ==> t == if Bit(w, j) then 1 else 0)
  {
    PowersOfTwo();
    var x := Shr(w, j);
    AndPower(31, x / 2, 15);
    BitShr(w, j, 0);
    BitShr(w, j, 16);
  }

  /** Bits `lead` to `limitLead - 1`, which may reach bit 31. */
  function Rectangle(lead: nat, limitLead: nat): nat
    requires lead < limitLead <= 32
  {
    BitsBelow(lead, 0);
    BitsBelow(limitLead, 0);
    var high := Not(32, Shl(1, lead) - 1);
    if limitLead < 32 then And(32, high, Shl(1, limitLead) - 1) else high
  }

  lemma RectangleBits(lead: nat, limitLead: nat, k: nat)
    requires lead < limitLead <= 32 && k < 32
    ensures Bit(Rectangle(lead, limitLead), k) <==> lead <= k < limitLead
  {
    hide Bit, Shl, And, Not;
    BitsBelow(lead, k);
    BitNot(32, Shl(1, lead) - 1, k);
    if limitLead < 32 {
      BitsBelow(limitLead, k);
      BitAnd(32, Not(32, Shl(1, lead) - 1), Shl(1, limitLead) - 1, k);
    }
  }

  // ---------------------------------------------------------------------------------------------
  // Tables of 64 words in "vertical" organization: number n is bit `n / 64` of word `n % 64`.

  predicate Has(table: seq<nat>, n: nat)
    requires |table| == 64 && n < 0x800
  {
    Bit(table[n % 64], n / 64)
  }

  /** Or-ing `bits` into one word. */
  lemma OrWord(table: seq<nat>, trail: nat, bits: nat, n: nat)
    requires |table| == 64 && trail < 64 && n < 0x800
    ensures Has(table[trail := Or(32, table[trail], bits)], n) <==>
            Has(table, n) || (n % 64 == trail && Bit(bits, n / 64))
  {
    hide Bit, Or;
    BitOr(32, table[trail], bits, n / 64);
  }

  /** And-ing `bits` into one word. */
  lemma AndWord(table: seq<nat>, trail: nat, bits: nat, n: nat)
    requires |table| == 64 && trail < 64 && n < 0x800
    ensures Has(table[trail := And(32, table[trail], bits)], n) <==>
            Has(table, n) && (n % 64 == trail ==> Bit(bits, n / 64))
  {
    hide Bit, And;
    BitAnd(32, table[trail], bits, n / 64);
  }

  lemma BitOfThree(k: nat)
    ensures Bit(3, k) <==> k < 2
  {
    if k > 0 { BitOfOne(k - 1); }
  }
}
