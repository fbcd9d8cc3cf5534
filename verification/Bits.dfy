/** Bit operations on natural numbers. */
module Bits {
  function And(x: nat, y: nat): (z: nat)
    ensures z <= x && z <= y
  {
    if x == 0 || y == 0 then 0 else 2 * And(x / 2, y / 2) + if x % 2 == 1 && y % 2 == 1 then 1 else 0
  }

  lemma AndStep(x: nat, y: nat)
    ensures And(x, y) == 2 * And(x / 2, y / 2) + if x % 2 == 1 && y % 2 == 1 then 1 else 0
  {
  }

  function Ones(n: nat): nat { if n == 0 then 0 else 2 * Ones(n - 1) + 1 }

  lemma {:induction false} AndOnes(x: nat, n: nat)
    requires x <= Ones(n)
    ensures And(x, Ones(n)) == x && And(Ones(n), x) == x
  {
    hide And;
    if n == 0 {
      AndZero(0);
    } else {
      AndOnes(x / 2, n - 1);
      AndStep(x, Ones(n));
      AndStep(Ones(n), x);
    }
  }

  lemma {:induction false} AndSelf(x: nat)
    ensures And(x, x) == x
  {
    if x > 0 { AndSelf(x / 2); }
  }

  function Power(n: nat): nat { if n == 0 then 1 else 2 * Power(n - 1) }

  predicate Bit(x: nat, n: nat) { if n == 0 then x % 2 == 1 else Bit(x / 2, n - 1) }

  /** Programming a byte without one of its bits clears that bit. */
  lemma {:induction false} AndClearsBit(x: nat, n: nat)
    requires Bit(x, n)
    ensures x >= Power(n) && And(x, x - Power(n)) == x - Power(n)
  {
    hide And;
    if n == 0 {
      AndSelf(x / 2);
      AndStep(x, x - 1);
    } else {
      AndClearsBit(x / 2, n - 1);
      AndDouble(x, Power(n - 1));
    }
  }

  lemma AndDouble(x: nat, w: nat)
    requires x / 2 >= w && And(x / 2, x / 2 - w) == x / 2 - w
    ensures x >= 2 * w && And(x, x - 2 * w) == x - 2 * w
  {
    hide And;
    AndStep(x, x - 2 * w);
    assert (x - 2 * w) / 2 == x / 2 - w;
  }

  function Or(x: nat, y: nat): (z: nat)
    ensures x <= z && y <= z <= x + y
  {
    if x == 0 then y else if y == 0 then x
    else 2 * Or(x / 2, y / 2) + if x % 2 == 1 || y % 2 == 1 then 1 else 0
  }

  lemma OrStep(x: nat, y: nat)
    ensures Or(x, y) == 2 * Or(x / 2, y / 2) + if x % 2 == 1 || y % 2 == 1 then 1 else 0
  {
    if x == 0 || y == 0 {
      assert Or(x / 2, y / 2) == x / 2 + y / 2;
    }
  }

  /** Shifted left by `n` bits. */
  function Left(x: nat, n: nat): nat { if n == 0 then x else 2 * Left(x, n - 1) }

  /** A mask of `n` bits takes the bits below the shifted ones. */
  lemma {:induction false} AndMask(x: nat, y: nat, n: nat)
    requires x < Power(n)
    ensures And(x + Left(y, n), Ones(n)) == x
  {
    hide And;
    if n == 0 {
      AndZero(y);
    } else {
      AndMask(x / 2, y, n - 1);
      AndStep(x + Left(y, n), Ones(n));
      assert (x + Left(y, n)) / 2 == x / 2 + Left(y, n - 1);
    }
  }

  lemma AndZero(x: nat)
    ensures And(x, 0) == 0
  {
  }

  /** Bits that do not overlap add up. */
  lemma {:induction false} OrDisjoint(x: nat, y: nat, n: nat)
    requires x < Power(n)
    ensures Or(x, Left(y, n)) == x + Left(y, n)
  {
    hide Or;
    if n == 0 {
      OrNothing(y);
    } else {
      OrDisjoint(x / 2, y, n - 1);
      OrStep(x, Left(y, n));
    }
  }

  lemma {:induction false} OrCommutes(x: nat, y: nat)
    ensures Or(x, y) == Or(y, x)
  {
    if x > 0 && y > 0 { OrCommutes(x / 2, y / 2); }
  }

  lemma OrNothing(y: nat)
    ensures Or(0, y) == y
  {
  }

  lemma TenLeft(x: nat)
    ensures Left(x, 10) == 1024 * x && Ones(10) == 1023 && Power(10) == 1024
  {
    assert Left(x, 0) == x && Left(x, 1) == 2 * x;
    assert Left(x, 2) == 4 * x && Left(x, 3) == 8 * x;
    assert Left(x, 4) == 16 * x && Left(x, 5) == 32 * x;
    assert Left(x, 6) == 64 * x && Left(x, 7) == 128 * x;
    assert Left(x, 8) == 256 * x && Left(x, 9) == 512 * x;
    assert Ones(4) == 15 && Ones(8) == 255 && Power(4) == 16 && Power(8) == 256;
  }
}
