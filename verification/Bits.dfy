/** Bitwise operations on the numbers that machine words stand for. */
module Bits {
  import opened Common

  function Pow2(k: nat): (p: nat)
    ensures p > 0
  {
    if k == 0 then 1 else 2 * Pow2(k - 1)
  }

  function Or(a: nat, b: nat): nat {
    if a == 0 then b else if b == 0 then a
    else (if a % 2 == 1 || b % 2 == 1 then 1 else 0) + 2 * Or(a / 2, b / 2)
  }

  function And(a: nat, b: nat): nat {
    if a == 0 || b == 0 then 0
    else (if a % 2 == 1 && b % 2 == 1 then 1 else 0) + 2 * And(a / 2, b / 2)
  }

  /** Whether bit k is set: x & (1 << k). */
  predicate Bit(x: nat, k: nat) {
    if k == 0 then x % 2 == 1 else Bit(x / 2, k - 1)
  }

  lemma {:induction false} BitIsShift(x: nat, k: nat)
    ensures Bit(x, k) <==> x / Pow2(k) % 2 == 1
  {
    if k > 0 {
      BitIsShift(x / 2, k - 1);
      DivDouble(x, Pow2(k - 1));
    }
  }

  lemma DivDouble(x: nat, p: nat)
    requires p > 0
    ensures x / (2 * p) == x / 2 / p
  {
    var q := x / 2 / p;
    var r := x / 2 % p;
    assert x / 2 == q * p + r;
    assert x == q * (2 * p) + (2 * r + x % 2);
    DivUnique(x, 2 * p, q, 2 * r + x % 2);
  }

  lemma Quotient(x: nat, d: nat)
    requires d > 0
    ensures x / d * d <= x < x / d * d + d
  {
  }

  lemma DivUnique(x: nat, d: nat, q: nat, r: nat)
    requires d > 0 && x == q * d + r && r < d
    ensures x / d == q
  {
    Quotient(x, d);
    var p := x / d;
    assert (p + 1) * d == p * d + d && (q + 1) * d == q * d + d;
    MulLess(p, q + 1, d);
    MulLess(q, p + 1, d);
  }

  /** The number with these bits, least significant first. */
  function FromBits(bs: seq<bool>): nat {
    if bs == [] then 0 else (if bs[0] then 1 else 0) + 2 * FromBits(bs[1..])
  }

  lemma {:induction false} FromBitsBit(bs: seq<bool>, k: nat)
    ensures Bit(FromBits(bs), k) <==> k < |bs| && bs[k]
  {
    if bs == [] {
      NoBits(k);
    } else {
      Halves(FromBits(bs[1..]));
      if k > 0 {
        FromBitsBit(bs[1..], k - 1);
      }
    }
  }

  lemma {:induction false} FromBitsBound(bs: seq<bool>)
    ensures FromBits(bs) < Pow2(|bs|)
  {
    if bs != [] {
      FromBitsBound(bs[1..]);
    }
  }

  lemma EightBits()
    ensures Pow2(8) == 0x100
  {
    assert Pow2(4) == 16 && Pow2(6) == 64;
  }

  /** And is bitwise. */
  lemma {:induction false} AndBits(a: nat, b: nat, k: nat)
    ensures Bit(And(a, b), k) <==> Bit(a, k) && Bit(b, k)
  {
    if a == 0 {
      NoBits(k);
    } else if b == 0 {
      NoBits(k);
    } else if k > 0 {
      AndBits(a / 2, b / 2, k - 1);
    }
  }

  /** Or is bitwise. */
  lemma {:induction false} OrBits(a: nat, b: nat, k: nat)
    ensures Bit(Or(a, b), k) <==> Bit(a, k) || Bit(b, k)
  {
    if a == 0 {
      NoBits(k);
    } else if b == 0 {
      NoBits(k);
    } else if k > 0 {
      OrBits(a / 2, b / 2, k - 1);
    }
  }

  lemma {:induction false} NoBits(k: nat)
    ensures !Bit(0, k)
  {
    if k > 0 {
      NoBits(k - 1);
    }
  }

  /** Or with a value below the other's lowest possible bit is addition. */
  lemma {:induction false} OrDisjoint(hi: nat, lo: nat, k: nat)
    requires lo < Pow2(k)
    ensures Or(hi * Pow2(k), lo) == hi * Pow2(k) + lo
  {
    if k > 0 && hi > 0 && lo > 0 {
      var p := Pow2(k - 1);
      assert hi * Pow2(k) == 2 * (hi * p);
      OrDisjoint(hi, lo / 2, k - 1);
      Halves(hi * p);
      assert Or(2 * (hi * p), lo) == lo % 2 + 2 * Or(hi * p, lo / 2);
    }
  }

  lemma {:induction false} OrBound(a: nat, b: nat, k: nat)
    requires a < Pow2(k) && b < Pow2(k)
    ensures Or(a, b) < Pow2(k)
  {
    if k > 0 {
      OrBound(a / 2, b / 2, k - 1);
    }
  }

  lemma {:induction false} AndBound(a: nat, b: nat)
    ensures And(a, b) <= b
  {
    if a > 0 && b > 0 {
      AndBound(a / 2, b / 2);
    }
  }

  lemma {:induction false} OrShuffle(a: nat, b: nat, c: nat)
    ensures Or(Or(a, b), c) == Or(a, Or(c, b))
    decreases a + b + c
  {
    if a > 0 && b > 0 && c > 0 {
      OrShuffle(a / 2, b / 2, c / 2);
      OrParts(a, b);
      OrParts(c, b);
    } else if a == 0 {
      OrCommutes(b, c);
    } else if b > 0 {
      assert c == 0;
    }
  }

  lemma {:induction false} OrParts(a: nat, b: nat)
    requires a > 0 && b > 0
    ensures Or(a, b) > 0 && Or(a, b) / 2 == Or(a / 2, b / 2)
    ensures Or(a, b) % 2 == if a % 2 == 1 || b % 2 == 1 then 1 else 0
  {
    OrPositive(a, b);
  }

  lemma {:induction false} OrPositive(a: nat, b: nat)
    requires a > 0 || b > 0
    ensures Or(a, b) > 0
  {
    if a > 0 && b > 0 && a % 2 == 0 && b % 2 == 0 {
      OrPositive(a / 2, b / 2);
    }
  }

  lemma {:induction false} OrCommutes(a: nat, b: nat)
    ensures Or(a, b) == Or(b, a)
  {
    if a > 0 && b > 0 {
      OrCommutes(a / 2, b / 2);
    }
  }

  lemma OrHalf(a: nat, b: nat)
    ensures Or(a, b) / 2 == Or(a / 2, b / 2)
  {
    if a > 0 && b > 0 {
      OrParts(a, b);
    }
  }

  lemma OrEighth(a: nat, b: nat)
    ensures Or(a, b) / 8 == Or(a / 8, b / 8)
  {
    hide Or;
    OrHalf(a, b);
    OrHalf(a / 2, b / 2);
    OrHalf(a / 4, b / 4);
  }

  lemma OrNibble(a: nat, b: nat)
    ensures Or(a, b) / 0x10 == Or(a / 0x10, b / 0x10)
  {
    hide Or;
    OrEighth(a, b);
    OrHalf(a / 8, b / 8);
  }

  lemma OrByte(a: nat, b: nat)
    ensures Or(a, b) / 0x100 == Or(a / 0x100, b / 0x100)
  {
    hide Or;
    OrNibble(a, b);
    OrNibble(a / 0x10, b / 0x10);
  }

  lemma OrZero(a: nat)
    ensures Or(a, 0) == a
  {
  }

  lemma Halves(x: nat)
    ensures 2 * x / 2 == x && 2 * x % 2 == 0
  {
  }

  lemma {:induction false} Pow2Monotone(k: nat, n: nat)
    requires k <= n
    ensures Pow2(k) <= Pow2(n)
  {
    if k < n {
      Pow2Monotone(k, n - 1);
    }
  }

  /** x with its low k bits cleared. */
  function Floor(x: nat, k: nat): nat {
    if k == 0 then x else 2 * Floor(x / 2, k - 1)
  }

  /** Clearing low bits rounds down to a multiple of 2^k. */
  lemma {:induction false} FloorRoundsDown(x: nat, k: nat)
    ensures Floor(x, k) <= x < Floor(x, k) + Pow2(k)
    ensures exists q: nat :: Floor(x, k) == q * Pow2(k)
  {
    if k == 0 {
      assert Floor(x, k) == x * Pow2(k);
    } else {
      FloorRoundsDown(x / 2, k - 1);
      var q: nat :| Floor(x / 2, k - 1) == q * Pow2(k - 1);
      assert Floor(x, k) == q * Pow2(k);
    }
  }

  /** 2^n - 2^k: the mask of bits k to n - 1. */
  function HighMask(k: nat, n: nat): nat
    requires k <= n
  {
    Pow2Monotone(k, n);
    Pow2(n) - Pow2(k)
  }

  lemma {:induction false} AndHighMask(x: nat, k: nat, n: nat)
    requires k <= n && x < Pow2(n)
    ensures And(x, HighMask(k, n)) == Floor(x, k)
    decreases n
  {
    if n > 0 {
      var k' := if k == 0 then 0 else k - 1;
      AndHighMask(x / 2, k', n - 1);
      Pow2Monotone(k, n);
      var m := HighMask(k, n);
      assert m / 2 == HighMask(k', n - 1);
      assert m % 2 == if k == 0 then 1 else 0;
      if x == 0 || m == 0 {
        FloorOfSmall(x, k);
      }
    } else {
      FloorOfSmall(x, k);
    }
  }

  lemma ModHalf(x: nat, p: nat)
    requires p > 0
    ensures x % (2 * p) / 2 == x / 2 % p && x % (2 * p) % 2 == x % 2
  {
    DivDouble(x, p);
    var q := x / (2 * p);
    Remainder(x, 2 * p);
    Remainder(x / 2, p);
    assert q * (2 * p) == 2 * (q * p);
  }

  lemma Remainder(x: nat, d: nat)
    requires d > 0
    ensures x % d == x - x / d * d
  {
  }

  /** Only the low bits of x meet a small mask. */
  lemma {:induction false} AndLow(x: nat, mask: nat, k: nat)
    requires mask < Pow2(k)
    ensures And(x, mask) == And(x % Pow2(k), mask)
  {
    if k > 0 {
      ModHalf(x, Pow2(k - 1));
      AndLow(x / 2, mask / 2, k - 1);
      AndUnfold(x, mask);
      AndUnfold(x % Pow2(k), mask);
    }
  }

  lemma AndUnfold(a: nat, b: nat)
    ensures And(a, b) == (if a % 2 == 1 && b % 2 == 1 then 1 else 0) + 2 * And(a / 2, b / 2)
  {
  }

  lemma FloorIs(x: nat, k: nat)
    ensures Floor(x, k) == x / Pow2(k) * Pow2(k)
  {
    FloorRoundsDown(x, k);
    var q: nat :| Floor(x, k) == q * Pow2(k);
    DivUnique(x, Pow2(k), q, x - Floor(x, k));
  }

  /** A mask of bits k to n - 1 takes those bits of x. */
  lemma AndMask(x: nat, k: nat, n: nat)
    requires k <= n
    ensures And(x, HighMask(k, n)) == x % Pow2(n) / Pow2(k) * Pow2(k)
  {
    hide And, Floor, Pow2;
    Pow2Monotone(k, n);
    AndLow(x, HighMask(k, n), n);
    Remainder(x, Pow2(n));
    Quotient(x, Pow2(n));
    AndHighMask(x % Pow2(n), k, n);
    FloorIs(x % Pow2(n), k);
  }

  lemma {:induction false} FloorOfSmall(x: nat, k: nat)
    ensures x < Pow2(k) ==> Floor(x, k) == 0
  {
    if k > 0 {
      FloorOfSmall(x / 2, k - 1);
    }
  }

  lemma {:induction false} Pow2Add(a: nat, b: nat)
    ensures Pow2(a + b) == Pow2(a) * Pow2(b)
  {
    if a > 0 {
      Pow2Add(a - 1, b);
      assert Pow2(a + b) == 2 * Pow2(a - 1 + b);
    }
  }

  lemma HalfPower(n: nat, k: nat)
    requires n > 1 && n == Pow2(k)
    ensures k > 0 && n / 2 == Pow2(k - 1)
  {
  }

  /** n & (n - 1) is zero exactly for powers of two. */
  lemma {:induction false} PowerOfTwoTest(n: nat)
    requires n > 0
    ensures And(n, n - 1) == 0 <==> exists k: nat :: n == Pow2(k)
  {
    if n == 1 {
      assert n == Pow2(0);
    } else if n % 2 == 1 {
      assert And(n / 2, n / 2) > 0 by { AndSelf(n / 2); }
      forall k: nat ensures n != Pow2(k) {
        assert k > 0 ==> Pow2(k) == 2 * Pow2(k - 1);
      }
    } else {
      PowerOfTwoTest(n / 2);
      assert And(n, n - 1) == 2 * And(n / 2, n / 2 - 1);
      if And(n, n - 1) == 0 {
        var k: nat :| n / 2 == Pow2(k);
        assert n == Pow2(k + 1);
      }
      if k: nat :| n == Pow2(k) {
        HalfPower(n, k);
        assert And(n / 2, n / 2 - 1) == 0;
      }
    }
  }

  lemma {:induction false} AndSelf(n: nat)
    ensures And(n, n) == n
  {
    if n > 0 {
      AndSelf(n / 2);
    }
  }
}
