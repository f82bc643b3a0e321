/** Bitwise operators on natural numbers, and how they act on numbers put
    together from blocks of bits. */
module Bits {

  /** a & b. */
  function And(a: nat, b: nat): nat {
    if a == 0 || b == 0 then 0
    else 2 * And(a / 2, b / 2) + if a % 2 == 1 && b % 2 == 1 then 1 else 0
  }

  /** a | b. */
  function Or(a: nat, b: nat): nat {
    if a == 0 then b
    else if b == 0 then a
    else 2 * Or(a / 2, b / 2) + if a % 2 == 1 || b % 2 == 1 then 1 else 0
  }

  /** a << n. */
  function Shl(a: nat, n: nat): nat {
    if n == 0 then a else 2 * Shl(a, n - 1)
  }

  lemma Nibble(a: nat, n: nat)
    ensures Shl(a, n + 4) == 0x10 * Shl(a, n)
  {
    assert Shl(a, n + 4) == 2 * Shl(a, n + 3) && Shl(a, n + 3) == 2 * Shl(a, n + 2);
  }

  lemma ShlIs(a: nat)
    ensures Shl(a, 1) == 2 * a && Shl(a, 2) == 4 * a && Shl(a, 4) == 0x10 * a
    ensures Shl(a, 14) == 0x4000 * a && Shl(a, 16) == 0x1_0000 * a
    ensures Shl(a, 24) == 0x100_0000 * a && Shl(a, 25) == 0x200_0000 * a
  {
    Nibble(a, 0);
    Nibble(a, 4);
    Nibble(a, 8);
    Nibble(a, 12);
    Nibble(a, 16);
    Nibble(a, 20);
    Nibble(a, 2);
    Nibble(a, 6);
    Nibble(a, 10);
    assert Shl(a, 25) == 2 * Shl(a, 24) && Shl(a, 2) == 2 * Shl(a, 1);
  }

  lemma AndZero(x: nat)
    ensures And(x, 0) == 0
  {
  }

  lemma OrZero(x: nat)
    ensures Or(x, 0) == x && Or(0, x) == x
  {
  }

  lemma Halves(n: nat, a: nat, x: nat)
    requires n > 0 && x < Shl(1, n)
    ensures Shl(a, n) + x == 2 * Shl(a, n - 1) + (2 * (x / 2) + x % 2) && x / 2 < Shl(1, n - 1)
    ensures Shl(a, n) == 2 * Shl(a, n - 1)
  {
  }

  lemma AndBit(a: nat, x: nat, b: nat, y: nat)
    requires x < 2 && y < 2
    ensures And(2 * a + x, 2 * b + y) == 2 * And(a, b) + if x == 1 && y == 1 then 1 else 0
  {
    assert (2 * a + x) / 2 == a && (2 * b + y) / 2 == b;
  }

  lemma OrBit(a: nat, x: nat, b: nat, y: nat)
    requires x < 2 && y < 2
    ensures Or(2 * a + x, 2 * b + y) == 2 * Or(a, b) + if x == 1 || y == 1 then 1 else 0
  {
    assert (2 * a + x) / 2 == a && (2 * b + y) / 2 == b;
  }

  lemma AndStep(a: nat, b: nat, c: nat, x: nat, xbit: nat, y: nat, ybit: nat)
    requires And(a + x, b + y) == c + And(x, y) && xbit < 2 && ybit < 2
    ensures And(2 * a + (2 * x + xbit), 2 * b + (2 * y + ybit)) == 2 * c + And(2 * x + xbit, 2 * y + ybit)
  {
    hide And;
    AndBit(a + x, xbit, b + y, ybit);
    AndBit(x, xbit, y, ybit);
  }

  /** The operators work on the two parts of a number separately. */
  lemma {:induction false} AndBlock(n: nat, a: nat, x: nat, b: nat, y: nat)
    requires x < Shl(1, n) && y < Shl(1, n)
    ensures And(Shl(a, n) + x, Shl(b, n) + y) == Shl(And(a, b), n) + And(x, y)
  {
    if n > 0 {
      hide And;
      var x', y' := x / 2, y / 2;
      Halves(n, a, x);
      Halves(n, b, y);
      Halves(n, And(a, b), 0);
      AndBlock(n - 1, a, x', b, y');
      AndStep(Shl(a, n - 1), Shl(b, n - 1), Shl(And(a, b), n - 1), x', x % 2, y', y % 2);
      hide Shl;
    }
  }

  lemma OrStep(a: nat, b: nat, c: nat, x: nat, xbit: nat, y: nat, ybit: nat)
    requires Or(a + x, b + y) == c + Or(x, y) && xbit < 2 && ybit < 2
    ensures Or(2 * a + (2 * x + xbit), 2 * b + (2 * y + ybit)) == 2 * c + Or(2 * x + xbit, 2 * y + ybit)
  {
    hide Or;
    OrBit(a + x, xbit, b + y, ybit);
    OrBit(x, xbit, y, ybit);
  }

  lemma {:induction false} OrBlock(n: nat, a: nat, x: nat, b: nat, y: nat)
    requires x < Shl(1, n) && y < Shl(1, n)
    ensures Or(Shl(a, n) + x, Shl(b, n) + y) == Shl(Or(a, b), n) + Or(x, y)
  {
    if n > 0 {
      hide Or;
      var x', y' := x / 2, y / 2;
      Halves(n, a, x);
      Halves(n, b, y);
      Halves(n, Or(a, b), 0);
      OrBlock(n - 1, a, x', b, y');
      OrStep(Shl(a, n - 1), Shl(b, n - 1), Shl(Or(a, b), n - 1), x', x % 2, y', y % 2);
      hide Shl;
    }
  }

  /** A mask of ones keeps what it covers. */
  lemma {:induction false} AndOnes(n: nat, x: nat)
    requires x < Shl(1, n)
    ensures And(x, Shl(1, n) - 1) == x
  {
    if n > 0 {
      AndOnes(n - 1, x / 2);
      AndBit(x / 2, x % 2, Shl(1, n - 1) - 1, 1);
    }
  }

  lemma LowBit(q: nat)
    ensures And(q, 1) == q % 2 && Or(q, 1) == q + (1 - q % 2)
  {
    assert q == 2 * (q / 2) + q % 2;
    AndBit(q / 2, q % 2, 0, 1);
    OrBit(q / 2, q % 2, 0, 1);
  }

  /** Testing and setting one bit of a number given in parts. */
  lemma OneBit(n: nat, q: nat, r: nat)
    requires r < Shl(1, n)
    ensures And(Shl(q, n) + r, Shl(1, n)) == Shl(q % 2, n)
    ensures Or(Shl(q, n) + r, Shl(1, n)) == Shl(q + (1 - q % 2), n) + r
  {
    hide And;
    hide Or;
    AndZero(r);
    OrZero(r);
    AndBlock(n, q, r, 1, 0);
    OrBlock(n, q, r, 1, 0);
    LowBit(q);
  }
}
