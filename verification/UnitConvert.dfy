/** Human-readable sizes (core/common/utils.cpp, unit_convert). */
module UnitConvert {
  import opened Common
  import opened Bits

  /** A size as printed: a number and one of Byte, KB, MB, GB, TB, PB, EB, ZB. */
  datatype Printed = Printed(value: nat, units: nat)

  function Kilo(k: nat): (p: nat)
    ensures p > 0
  {
    if k == 0 then 1 else 1024 * Kilo(k - 1)
  }

  ghost predicate IsPow2(n: nat) { exists k: nat :: n == Pow2(k) }

  /** size after i shifts by ten bits. */
  function Down(size: nat, i: nat): nat {
    if i == 0 then size else Down(size, i - 1) / 1024
  }

  lemma {:induction false} DownBounds(size: nat, i: nat)
    ensures Down(size, i) * Kilo(i) <= size < (Down(size, i) + 1) * Kilo(i)
  {
    if i > 0 {
      DownBounds(size, i - 1);
      var d, k := Down(size, i - 1), Kilo(i - 1);
      var q := d / 1024;
      Regroup(q, k);
      Regroup(q + 1, k);
      MulMonotone(q * 1024, d, k);
      MulMonotone(d + 1, (q + 1) * 1024, k);
    }
  }

  lemma Regroup(a: nat, k: nat)
    ensures a * (1024 * k) == a * 1024 * k
  {
  }

  lemma {:induction false} DownEight(size: nat)
    requires size < U64
    ensures Down(size, 7) == 0
  {
    assert Kilo(7) > U64 by {
      assert Kilo(3) == 1024 * 1024 * 1024;
      assert Kilo(5) == 1024 * 1024 * Kilo(3);
    }
    DownBounds(size, 7);
    MulLess(Down(size, 7), 1, Kilo(7));
  }

  lemma {:induction false} DownOfPow2(k: nat, i: nat)
    ensures Down(Pow2(k), i) == if 10 * i <= k then Pow2(k - 10 * i) else 0
    ensures 10 * i <= k ==> Pow2(k - 10 * i) * Kilo(i) == Pow2(k)
  {
    hide Pow2;
    if i > 0 {
      DownOfPow2(k, i - 1);
      Ten();
      var j := k - 10 * (i - 1);
      if j >= 10 {
        Pow2Add(10, j - 10);
        Regroup(Pow2(j - 10), Kilo(i - 1));
      } else if j >= 0 {
        Pow2Monotone(j, 9);
      }
    }
  }

  lemma Ten()
    ensures Pow2(10) == 1024 && Pow2(9) == 512
  {
    assert Pow2(3) == 8 && Pow2(6) == 64;
  }

  lemma Shifts()
    ensures Pow2(0) == 1 && Pow2(6) == 64
  {
    assert Pow2(3) == 8;
  }

  /** The value is the size in that unit, rounded down, and at least floor of the unit fit. */
  predicate Fits(size: nat, floor: nat, p: Printed) {
    && p.value * Kilo(p.units) <= size < (p.value + 1) * Kilo(p.units)
    && floor <= p.value < 1024 * floor
  }

  method Convert(input: nat) returns (p: Printed)
    requires input < U64
    ensures p.units < 8
    ensures input < 64 ==> p == Printed(input, 0)
    ensures input >= 64 && !IsPow2(input) ==> Fits(input, 64, p)
    ensures input >= 64 && IsPow2(input) ==> Fits(input, 1, p) && p.value * Kilo(p.units) == input
  {
    hide Kilo, And, Pow2;
    var size := input;
    var i, bitShift := 0, 6;
    if size < 64 {
      return Printed(size, 0);
    }
    PowerOfTwoTest(size);
    if And(size, size - 1) == 0 {
      bitShift := 0;
    }
    var ret := size;
    DownEight(input);
    Shifts();
    while size / Pow2(bitShift) != 0 && i < 8
      invariant i <= 7 && size == Down(input, i)
      invariant i == 0 || (ret == Down(input, i - 1) && ret / Pow2(bitShift) != 0)
      decreases 8 - i
    {
      ret := size;
      size := size / 1024;
      i := i + 1;
    }
    DownBounds(input, i - 1);
    if IsPow2(input) {
      var k: nat :| input == Pow2(k);
      DownOfPow2(k, i - 1);
    }
    p := Printed(ret, i - 1);
  }

  /** What the reader of a printed size knows: it is low by less than one part in 64. */
  lemma ErrorBelowOneIn64(size: nat, p: Printed)
    requires Fits(size, 64, p)
    ensures 0 <= size - p.value * Kilo(p.units)
    ensures 64 * (size - p.value * Kilo(p.units)) < size
  {
    var u := Kilo(p.units);
    assert (p.value + 1) * u == p.value * u + u;
    assert 64 * u <= p.value * u;
  }
}
