/** Sizing the command queue's slots (core/common/device.cpp, get_ert_slots). */
module ErtSlots {
  import opened Common

  const CQ_SIZE: nat := 0x1_0000
  const MAX_SLOTS: nat := 128
  const MIN_SLOTS: nat := 16

  datatype SlotError = InvalidSlotSize | DivisionByZero

  datatype Slots = Slots(count: nat, size: nat)

  /** The slots wanted: two commands per CU and a reserved one, within bounds. */
  function Wanted(numCus: nat): nat { Min(MAX_SLOTS, Max(MIN_SLOTS, numCus * 2 + 1)) }

  /** Slots before rounding: as many as both the wish and the largest register map allow. */
  function Unrounded(numCus: nat, maxCuSize: nat): nat {
    CQ_SIZE / Max(CQ_SIZE / Wanted(numCus), maxCuSize)
  }

  /** The 32-slot status register boundary. */
  function Rounded(slots: nat): nat {
    if slots > 16 then ((slots - 1) / 32 + 1) * 32 else slots
  }

  method GetErtSlots(override: nat, numCus: nat, maxCuSize: nat) returns (r: Result<Slots, SlotError>)
    ensures override != 0 ==>
      r == if CQ_SIZE / override > MAX_SLOTS then Err(InvalidSlotSize) else Ok(Slots(CQ_SIZE / override, override))
    ensures override == 0 ==> (r.Err? <==> maxCuSize > CQ_SIZE)
    ensures override == 0 && r.Ok? ==>
      && r.value.count == Rounded(Unrounded(numCus, maxCuSize)) > 0
      && r.value.size == CQ_SIZE / r.value.count
  {
    if override != 0 {
      if CQ_SIZE / override > MAX_SLOTS {
        return Err(InvalidSlotSize);
      }
      return Ok(Slots(CQ_SIZE / override, override));
    }
    var slots := Min(MAX_SLOTS, Max(MIN_SLOTS, numCus * 2 + 1));
    UnroundedZero(numCus, maxCuSize);
    var size := Max(CQ_SIZE / slots, maxCuSize);
    slots := CQ_SIZE / size;
    hide Unrounded, Wanted, Min, Max;
    if slots > 16 {
      var idx := (slots - 1) / 32;
      slots := (idx + 1) * 32;
    }
    if slots == 0 {
      return Err(DivisionByZero);
    }
    return Ok(Slots(slots, CQ_SIZE / slots));
  }

  lemma DivBounds(a: nat, b: nat)
    requires b > 0
    ensures a / b * b <= a < a / b * b + b
  {
  }

  lemma DivAtLeast(a: nat, b: nat, q: nat)
    requires b > 0 && q * b <= a
    ensures a / b >= q
  {
    DivBounds(a, b);
    assert (a / b + 1) * b == a / b * b + b;
    MulLess(q, a / b + 1, b);
  }

  lemma DivAtMost(a: nat, b: nat, q: nat)
    requires b > 0 && a < (q + 1) * b
    ensures a / b <= q
  {
    DivBounds(a, b);
    MulLess(a / b, q + 1, b);
  }

  lemma UnroundedZero(numCus: nat, maxCuSize: nat)
    ensures Max(CQ_SIZE / Wanted(numCus), maxCuSize) > 0
    ensures Unrounded(numCus, maxCuSize) == 0 <==> maxCuSize > CQ_SIZE
  {
    if maxCuSize > CQ_SIZE {
      WantedBounds(numCus);
      DivAtMost(CQ_SIZE, Wanted(numCus), CQ_SIZE);
      DivAtMost(CQ_SIZE, maxCuSize, 0);
    } else {
      UnroundedBounds(numCus, maxCuSize);
    }
  }

  lemma UnroundedBounds(numCus: nat, maxCuSize: nat)
    requires maxCuSize <= CQ_SIZE
    ensures Max(CQ_SIZE / Wanted(numCus), maxCuSize) > 0
    ensures 1 <= Unrounded(numCus, maxCuSize) <= MAX_SLOTS
    ensures maxCuSize * Unrounded(numCus, maxCuSize) <= CQ_SIZE
    ensures maxCuSize * Wanted(numCus) <= CQ_SIZE ==> Unrounded(numCus, maxCuSize) >= Wanted(numCus)
  {
    hide Wanted;
    WantedBounds(numCus);
    var w := Wanted(numCus);
    var share := CQ_SIZE / w;
    var size := Max(share, maxCuSize);
    DivAtLeast(CQ_SIZE, w, 512);
    DivAtMost(CQ_SIZE, w, CQ_SIZE);
    DivAtLeast(CQ_SIZE, size, 1);
    DivAtMost(CQ_SIZE, size, MAX_SLOTS);
    DivBounds(CQ_SIZE, size);
    var u := CQ_SIZE / size;
    assert maxCuSize * u <= size * u;
    if maxCuSize * w <= CQ_SIZE {
      DivAtLeast(CQ_SIZE, w, maxCuSize);
      DivBounds(CQ_SIZE, w);
      DivAtLeast(CQ_SIZE, share, w);
    }
  }

  lemma WantedBounds(numCus: nat)
    ensures 16 <= Wanted(numCus) <= 128
  {
  }

  lemma RoundedBounds(u: nat)
    requires 1 <= u <= MAX_SLOTS
    ensures u <= Rounded(u) <= MAX_SLOTS
    ensures Rounded(u) <= 16 || Rounded(u) % 32 == 0
    ensures u <= 16 ==> Rounded(u) == u
  {
  }

  /**
   The slots chosen without an override: between 1 and 128, at most 16 or whole status registers,
   together inside the queue, and as many as wanted whenever the largest register map allows it.
   */
  lemma SlotsAreSound(numCus: nat, maxCuSize: nat)
    requires maxCuSize <= CQ_SIZE
    ensures var n := Rounded(Unrounded(numCus, maxCuSize));
      && 1 <= n <= MAX_SLOTS
      && (n <= 16 || n % 32 == 0)
      && n * (CQ_SIZE / n) <= CQ_SIZE
      && (maxCuSize * Min(128, Max(16, numCus * 2 + 1)) <= CQ_SIZE ==> n >= Min(128, Max(16, numCus * 2 + 1)))
  {
    hide Rounded, Unrounded;
    UnroundedBounds(numCus, maxCuSize);
    RoundedBounds(Unrounded(numCus, maxCuSize));
    DivBounds(CQ_SIZE, Rounded(Unrounded(numCus, maxCuSize)));
  }

  /** A number of slots is reached exactly when that many shares and that many register maps fit the queue. */
  lemma UnroundedAtLeast(numCus: nat, maxCuSize: nat, k: nat)
    requires k > 0
    ensures CQ_SIZE / Wanted(numCus) > 0
    ensures Unrounded(numCus, maxCuSize) >= k <==> Max(CQ_SIZE / Wanted(numCus), maxCuSize) * k <= CQ_SIZE
  {
    hide Wanted;
    WantedBounds(numCus);
    DivAtLeast(CQ_SIZE, Wanted(numCus), 1);
    var size := Max(CQ_SIZE / Wanted(numCus), maxCuSize);
    if size * k <= CQ_SIZE {
      DivAtLeast(CQ_SIZE, size, k);
    } else {
      DivAtMost(CQ_SIZE, size, k - 1);
    }
  }

  /** The equal shares of the queue at the sizes where the number of status registers changes. */
  lemma ShareBounds(numCus: nat)
    ensures var share := CQ_SIZE / Wanted(numCus);
      && (share >= 3856 <==> numCus <= 7)
      && (share >= 1986 <==> numCus <= 15)
      && (share >= 1009 <==> numCus <= 31)
      && (share >= 676 <==> numCus <= 47)
  {
    hide Wanted;
    WantedBounds(numCus);
    WantedSteps(numCus);
    var w := Wanted(numCus);
    ShareAtLeast(w, 3856, 16);
    ShareAtLeast(w, 1986, 32);
    ShareAtLeast(w, 1009, 64);
    ShareAtLeast(w, 676, 96);
  }

  lemma ShareAtLeast(w: nat, s: nat, k: nat)
    requires w > 0 && s * k <= CQ_SIZE < s * (k + 1)
    ensures CQ_SIZE / w >= s <==> w <= k
  {
    if w <= k {
      MulMonotone(w, k, s);
      DivAtLeast(CQ_SIZE, w, s);
    } else {
      MulMonotone(k + 1, w, s);
      DivAtMost(CQ_SIZE, w, s - 1);
    }
  }

  lemma WantedSteps(numCus: nat)
    ensures Wanted(numCus) <= 16 <==> numCus <= 7
    ensures Wanted(numCus) <= 32 <==> numCus <= 15
    ensures Wanted(numCus) <= 64 <==> numCus <= 31
    ensures Wanted(numCus) <= 96 <==> numCus <= 47
  {
  }

  /**
   When rounding up to whole status registers leaves room for the largest register map: few CUs for
   the map's size, or a map whose size by itself gives a slot count just below a register boundary.
   */
  predicate RegmapFits(numCus: nat, maxCuSize: nat) {
    || numCus <= 7
    || maxCuSize <= 512 || 676 <= maxCuSize <= 682 || 1009 <= maxCuSize <= 1024 || 1986 <= maxCuSize <= 2048
    || 3856 <= maxCuSize
    || (numCus <= 47 && maxCuSize <= 682)
    || (numCus <= 31 && maxCuSize <= 1024)
    || (numCus <= 15 && maxCuSize <= 2048)
  }

  /** A slot holds the largest register map exactly for these numbers of CUs and map sizes. */
  lemma SlotHoldsRegmap(numCus: nat, maxCuSize: nat)
    requires maxCuSize <= CQ_SIZE
    ensures var n := Rounded(Unrounded(numCus, maxCuSize));
      n > 0 && (maxCuSize <= CQ_SIZE / n <==> RegmapFits(numCus, maxCuSize))
  {
    hide Unrounded, Wanted;
    UnroundedBounds(numCus, maxCuSize);
    ShareBounds(numCus);
    UnroundedAtLeast(numCus, maxCuSize, 17);
    UnroundedAtLeast(numCus, maxCuSize, 33);
    UnroundedAtLeast(numCus, maxCuSize, 65);
    UnroundedAtLeast(numCus, maxCuSize, 97);
    RoundedSteps(Unrounded(numCus, maxCuSize), maxCuSize);
  }

  /** The slot size after rounding, register by register. */
  lemma RoundedSteps(u: nat, maxCuSize: nat)
    requires 1 <= u <= MAX_SLOTS && maxCuSize * u <= CQ_SIZE
    ensures Rounded(u) > 0
    ensures maxCuSize <= CQ_SIZE / Rounded(u) <==>
            maxCuSize <= if u < 17 then maxCuSize else if u < 33 then 2048
                         else if u < 65 then 1024 else if u < 97 then 682 else 512
  {
    hide Rounded;
    RoundedValue(u);
    if u < 17 {
      DivAtLeast(CQ_SIZE, u, maxCuSize);
    }
  }

  lemma RoundedValue(u: nat)
    requires 1 <= u <= MAX_SLOTS
    ensures Rounded(u) == if u < 17 then u else if u < 33 then 32 else if u < 65 then 64 else if u < 97 then 96 else 128
  {
  }

  /** Rounding can leave slots too small: eight CUs with a 3000-byte register map get 2048-byte slots. */
  lemma RoundingShrinksSlots()
    ensures Wanted(8) == 17 && Rounded(Unrounded(8, 3000)) == 32 && CQ_SIZE / 32 < 3000
  {
  }
}
