// The C operators |, &, >> and << on non-negative integers, defined bit by bit, and the
// arithmetic they come to when one operand is a mask.
module Bits {
  function Or(a: nat, b: nat): nat {
    if a == 0 && b == 0 then 0
    else 2 * Or(a / 2, b / 2) + (if a % 2 == 1 || b % 2 == 1 then 1 else 0)
  }

  function And(a: nat, b: nat): nat {
    if a == 0 && b == 0 then 0
    else 2 * And(a / 2, b / 2) + (if a % 2 == 1 && b % 2 == 1 then 1 else 0)
  }

  function Shr(a: nat, k: nat): nat {
    if k == 0 then a else Shr(a / 2, k - 1)
  }

  function Shl(a: nat, k: nat): nat {
    if k == 0 then a else 2 * Shl(a, k - 1)
  }

  lemma ShlValues(a: nat)
    ensures Shl(a, 1) == 2 * a && Shl(a, 4) == 16 * a && Shl(a, 5) == 32 * a && Shl(a, 6) == 64 * a
    ensures Shl(a, 7) == 128 * a && Shl(a, 10) == 1024 * a && Shl(a, 16) == 65536 * a
  {
    assert Shl(a, 1) == 2 * a;
    assert Shl(a, 2) == 4 * a;
    assert Shl(a, 4) == 16 * a;
    assert Shl(a, 6) == 64 * a;
    assert Shl(a, 8) == 256 * a;
    assert Shl(a, 10) == 1024 * a;
    assert Shl(a, 12) == 4096 * a;
    assert Shl(a, 14) == 16384 * a;
  }

  lemma ShrSix(a: nat)
    ensures Shr(a, 6) == a / 64
  {
    assert Shr(a, 6) == Shr(a / 4, 4);
    assert Shr(a / 4, 4) == Shr(a / 16, 2);
    assert Shr(a / 16, 2) == Shr(a / 64, 0);
  }

  lemma OrHalves(a: nat, x: nat, b: nat, y: nat)
    requires x < 2 && y < 2
    ensures Or(2 * a + x, 2 * b + y) == 2 * Or(a, b) + (if x == 1 || y == 1 then 1 else 0)
  {
  }

  lemma AndHalves(a: nat, x: nat, b: nat, y: nat)
    requires x < 2 && y < 2
    ensures And(2 * a + x, 2 * b + y) == 2 * And(a, b) + (if x == 1 && y == 1 then 1 else 0)
  {
  }

  lemma OrOfHalves(a: nat, b: nat, ah: nat, x: nat, bh: nat, y: nat)
    requires a == 2 * ah + x && b == 2 * bh + y && x < 2 && y < 2
    ensures Or(a, b) == 2 * Or(ah, bh) + (if x == 1 || y == 1 then 1 else 0)
  {
    hide Or;
    OrHalves(ah, x, bh, y);
  }

  lemma AndOfHalves(a: nat, b: nat, ah: nat, x: nat, bh: nat, y: nat)
    requires a == 2 * ah + x && b == 2 * bh + y && x < 2 && y < 2
    ensures And(a, b) == 2 * And(ah, bh) + (if x == 1 && y == 1 then 1 else 0)
  {
    hide And;
    AndHalves(ah, x, bh, y);
  }

  lemma {:induction false} HalveSum(h: nat, l: nat, k: nat)
    requires k > 0
    ensures Shl(h, k) + l == 2 * (Shl(h, k - 1) + l / 2) + l % 2
    ensures l < Shl(1, k) ==> l / 2 < Shl(1, k - 1)
  {
  }

  lemma {:induction false} ShlZero(h: nat)
    ensures Shl(h, 0) == h
  {
  }

  // The low k bits and the bits above them are combined independently.
  lemma {:induction false} OrSplit(ah: nat, al: nat, bh: nat, bl: nat, k: nat)
    requires al < Shl(1, k) && bl < Shl(1, k)
    ensures Or(Shl(ah, k) + al, Shl(bh, k) + bl) == Shl(Or(ah, bh), k) + Or(al, bl)
  {
    hide Or, Shl;
    if k == 0 {
      ShlZero(ah);
      ShlZero(bh);
      ShlZero(1);
      ShlZero(Or(ah, bh));
      OrZero(0);
    } else {
      HalveSum(ah, al, k);
      HalveSum(bh, bl, k);
      OrSplit(ah, al / 2, bh, bl / 2, k - 1);
      OrOfHalves(Shl(ah, k) + al, Shl(bh, k) + bl, Shl(ah, k - 1) + al / 2, al % 2, Shl(bh, k - 1) + bl / 2, bl % 2);
      OrOfHalves(al, bl, al / 2, al % 2, bl / 2, bl % 2);
      HalveSum(Or(ah, bh), 0, k);
    }
  }

  lemma {:induction false} AndSplit(ah: nat, al: nat, bh: nat, bl: nat, k: nat)
    requires al < Shl(1, k) && bl < Shl(1, k)
    ensures And(Shl(ah, k) + al, Shl(bh, k) + bl) == Shl(And(ah, bh), k) + And(al, bl)
  {
    hide And, Shl;
    if k == 0 {
      ShlZero(ah);
      ShlZero(bh);
      ShlZero(1);
      ShlZero(And(ah, bh));
      AndZero(0);
    } else {
      HalveSum(ah, al, k);
      HalveSum(bh, bl, k);
      AndSplit(ah, al / 2, bh, bl / 2, k - 1);
      AndOfHalves(Shl(ah, k) + al, Shl(bh, k) + bl, Shl(ah, k - 1) + al / 2, al % 2, Shl(bh, k - 1) + bl / 2, bl % 2);
      AndOfHalves(al, bl, al / 2, al % 2, bl / 2, bl % 2);
      HalveSum(And(ah, bh), 0, k);
    }
  }

  lemma OrZero(a: nat)
    ensures Or(a, 0) == a && Or(0, a) == a
  {
    if a > 0 { OrZero(a / 2); }
  }

  lemma AndZero(a: nat)
    ensures And(a, 0) == 0 && And(0, a) == 0
  {
    if a > 0 { AndZero(a / 2); }
  }

  // Setting bit 0.
  lemma OrOne(a: nat)
    ensures Or(a, 1) == a + 1 - a % 2 && Or(1, a) == a + 1 - a % 2
  {
    OrZero(a / 2);
  }

  // Masking a k-bit number with k ones.
  lemma {:induction false} AndOnes(a: nat, k: nat)
    requires a < Shl(1, k)
    ensures And(a, Shl(1, k) - 1) == a
  {
    if k > 0 {
      AndOnes(a / 2, k - 1);
      AndHalves(a / 2, a % 2, Shl(1, k - 1) - 1, 1);
    }
  }

  lemma {:induction false} ShlPositive(k: nat)
    ensures Shl(1, k) > 0 && Shl(0, k) == 0
  {
    if k > 0 { ShlPositive(k - 1); }
  }

  // Masking with k ones keeps the low k bits.
  lemma AndMask(ah: nat, al: nat, k: nat)
    requires al < Shl(1, k)
    ensures And(Shl(ah, k) + al, Shl(1, k) - 1) == al
  {
    ShlPositive(k);
    AndSplit(ah, al, 0, Shl(1, k) - 1, k);
    AndZero(ah);
    AndOnes(al, k);
  }

  // Or of two numbers with no common bits is their sum.
  lemma OrDisjoint(ah: nat, b: nat, k: nat)
    requires b < Shl(1, k)
    ensures Or(Shl(ah, k), b) == Shl(ah, k) + b
    ensures Or(b, Shl(ah, k)) == Shl(ah, k) + b
  {
    hide Or;
    ShlPositive(k);
    OrSplit(ah, 0, 0, b, k);
    OrSplit(0, b, ah, 0, k);
    OrZero(ah);
    OrZero(b);
  }
}
