/**
 Device memory access by bank (core/common/memaccess.cpp): which banks count, where a request may
 start, how much it may ask for, and the transfers it turns into.  Device transfers are taken to
 succeed.
 */
module MemAccess {
  import opened Common
  import opened Sorting

  /** An entry of the memory topology; the size is in kilobytes. */
  datatype MemData = MemData(used: bool, streaming: bool, base: u64, sizeKb: u64)

  datatype Bank = Bank(base: u64, size: u64)

  datatype AccessError = NoValidBanks | InvalidStart | TooLarge | Incomplete

  /** One call of unmgd_pread or unmgd_pwrite. */
  datatype Transfer = Transfer(bufferOffset: nat, bytes: nat, addr: nat)

  function BaseOf(b: Bank): nat { b.base }
  function SizeOf(b: Bank): nat { b.size }
  function End(b: Bank): nat { b.base + b.size }

  function Selected(topology: seq<MemData>): seq<Bank> {
    if topology == [] then []
    else
      var m := topology[0];
      (if m.used && !m.streaming then [Bank(m.base, m.sizeKb * 1024 % U64)] else []) + Selected(topology[1..])
  }

  function Banks(topology: seq<MemData>): seq<Bank> { StableSort(Selected(topology), BaseOf) }

  lemma SelectedStep(topology: seq<MemData>, i: nat)
    requires i < |topology|
    ensures var m := topology[i];
      Selected(topology[i..]) ==
      (if m.used && !m.streaming then [Bank(m.base, m.sizeKb * 1024 % U64)] else []) + Selected(topology[i + 1..])
  {
    assert topology[i..][1..] == topology[i + 1..];
  }

  method GetDdrBanks(topology: seq<MemData>) returns (banks: seq<Bank>)
    ensures banks == Banks(topology)
  {
    hide StableSort;
    banks := [];
    for i := 0 to |topology|
      invariant banks + Selected(topology[i..]) == Selected(topology)
    {
      hide Selected;
      SelectedStep(topology, i);
      if topology[i].used && !topology[i].streaming {
        Append(banks, Bank(topology[i].base, topology[i].sizeKb * 1024 % U64), Selected(topology[i + 1..]));
        banks := banks + [Bank(topology[i].base, topology[i].sizeKb * 1024 % U64)];
      }
    }
    assert banks == Selected(topology);
    banks := StableSort(banks, BaseOf);
  }

  // ----- Start address and start bank -----

  /** The first bank satisfying p, as std::find_if; |banks| when there is none. */
  function FindIf(banks: seq<Bank>, p: Bank -> bool): (i: nat)
    ensures i <= |banks| && (i < |banks| ==> p(banks[i])) && forall k | 0 <= k < i :: !p(banks[k])
  {
    if banks == [] || p(banks[0]) then 0 else 1 + FindIf(banks[1..], p)
  }

  predicate NonEmpty(b: Bank) { b.size != 0 }

  predicate Contains(b: Bank, a: nat) { b.base <= a < End(b) % U64 }

  function StartAddress(banks: seq<Bank>, startAddr: nat): Result<nat, AccessError> {
    var i := FindIf(banks, NonEmpty);
    if i == |banks| then Err(NoValidBanks)
    else Ok(if startAddr == 0 then banks[i].base else startAddr)
  }

  function StartBank(banks: seq<Bank>, a: nat): Result<nat, AccessError> {
    var i := FindIf(banks, (b: Bank) => Contains(b, a));
    if i == |banks| then Err(InvalidStart) else Ok(i)
  }

  function Available(banks: seq<Bank>, start: nat, a: nat): nat
    requires start < |banks|
  {
    (Sum(banks[start..], SizeOf) - (a - banks[start].base)) % U64
  }

  // ----- The size check -----

  /** A bank that reaches 2^64 contains no address as far as the check is concerned. */
  lemma ContainsEnds(b: Bank, a: nat)
    requires Contains(b, a)
    ensures a < End(b) < U64
  {
  }

  predicate Apart(b: Bank, c: Bank) {
    NonEmpty(b) && NonEmpty(c) ==> End(b) <= c.base || End(c) <= b.base
  }

  ghost predicate Disjoint(banks: seq<Bank>) {
    forall i, j | 0 <= i < j < |banks| :: Apart(banks[i], banks[j])
  }

  /** The bank's bytes at or above an address. */
  function BytesAbove(b: Bank, a: nat): nat {
    if a <= b.base then b.size else if a < End(b) then End(b) - a else 0
  }

  function Above(a: nat): Bank -> nat { (b: Bank) => BytesAbove(b, a) }

  function UsableFrom(banks: seq<Bank>, a: nat): nat { Sum(banks, Above(a)) }

  /** Sorted and disjoint: non-empty banks lie one after the other. */
  lemma InOrder(banks: seq<Bank>, i: nat, j: nat)
    requires SortedBy(banks, BaseOf) && Disjoint(banks) && i < j < |banks|
    requires NonEmpty(banks[i]) && NonEmpty(banks[j])
    ensures End(banks[i]) <= banks[j].base
  {
    assert Apart(banks[i], banks[j]) && BaseOf(banks[i]) <= BaseOf(banks[j]);
  }

  lemma {:induction false} SumZero<T>(s: seq<T>, f: T -> nat)
    requires forall x | x in s :: f(x) == 0
    ensures Sum(s, f) == 0
  {
    if s != [] {
      assert s[0] in s && forall x | x in s[1..] :: x in s;
      SumZero(s[1..], f);
    }
  }

  lemma NoneBefore(banks: seq<Bank>, start: nat, a: nat)
    requires SortedBy(banks, BaseOf) && Disjoint(banks) && start < |banks|
    requires banks[start].base <= a < End(banks[start])
    ensures Sum(banks[..start], Above(a)) == 0
  {
    hide Sum, SortedBy, Disjoint;
    forall b | b in banks[..start] ensures Above(a)(b) == 0 {
      var i :| 0 <= i < start && banks[i] == b;
      if NonEmpty(b) { InOrder(banks, i, start); }
    }
    SumZero(banks[..start], Above(a));
  }

  lemma AllAfter(banks: seq<Bank>, start: nat, a: nat)
    requires SortedBy(banks, BaseOf) && Disjoint(banks) && start < |banks|
    requires banks[start].base <= a < End(banks[start])
    ensures Sum(banks[start + 1..], Above(a)) == Sum(banks[start + 1..], SizeOf)
  {
    hide Sum, SortedBy, Disjoint;
    var after := banks[start + 1..];
    forall b | b in after ensures Above(a)(b) == SizeOf(b) {
      var j :| 0 <= j < |after| && after[j] == b;
      assert banks[start + 1 + j] == b;
      if NonEmpty(b) { InOrder(banks, start, start + 1 + j); }
    }
    SumAgree(after, Above(a), SizeOf);
  }

  /** The size the check compares with is the number of used-bank bytes at or above the start address, in 64 bits. */
  lemma AvailableIsUsable(banks: seq<Bank>, start: nat, a: nat)
    requires SortedBy(banks, BaseOf) && Disjoint(banks)
    requires start < |banks| && Contains(banks[start], a)
    ensures Available(banks, start, a) == UsableFrom(banks, a) % U64
  {
    hide Sum, SortedBy, Disjoint;
    ContainsEnds(banks[start], a);
    NoneBefore(banks, start, a);
    AllAfter(banks, start, a);
    SumSplit(banks, start, Above(a));
    SumSplit(banks, start, SizeOf);
  }

  lemma AvailableBound(banks: seq<Bank>, start: nat, a: nat)
    requires start < |banks| && Contains(banks[start], a)
    ensures var total := Rest(banks[start], a) + Sum(banks[start + 1..], SizeOf);
      Available(banks, start, a) == total % U64 <= total
  {
    hide Sum;
    ContainsEnds(banks[start], a);
    SumSplit(banks, start, SizeOf);
  }

  // ----- The transfers -----

  /** Bytes from an address to the end of its bank. */
  function Rest(b: Bank, a: nat): nat { if a <= End(b) then End(b) - a else 0 }

  /**
   The documented behaviour: continue bank by bank, each transfer at the address reached and no
   longer than what is still to be moved.
   */
  function Documented(banks: seq<Bank>, a: nat, remaining: nat, seen: nat): seq<Transfer> {
    if banks == [] || remaining == 0 then []
    else
      var n := Min(Rest(banks[0], a), remaining);
      [Transfer(seen, n, a)]
      + (if |banks| == 1 then [] else Documented(banks[1..], banks[1].base, remaining - n, seen + n))
  }

  /**
   What the loop does instead: every transfer is clipped only to the whole request and goes to the
   first address, and the count of remaining bytes wraps around below zero.
   */
  function Performed(banks: seq<Bank>, a: nat, first: nat, size: nat, remaining: nat, seen: nat): seq<Transfer> {
    if banks == [] || remaining == 0 then []
    else
      var n := Min(Rest(banks[0], a), size);
      [Transfer(seen, n, first)]
      + (if |banks| == 1 then []
         else Performed(banks[1..], banks[1].base, first, size, (remaining - n) % U64, seen + n))
  }

  /** The loop's count of remaining bytes when it ends. */
  function Leftover(banks: seq<Bank>, a: nat, size: nat, remaining: nat): nat {
    if banks == [] || remaining == 0 then remaining
    else
      var left := (remaining - Min(Rest(banks[0], a), size)) % U64;
      if |banks| == 1 then left else Leftover(banks[1..], banks[1].base, size, left)
  }

  datatype Outcome = Outcome(transfers: seq<Transfer>, error: Option<AccessError>)

  /** A request as far as it gets before its first transfer: the bank and address to start at. */
  function Accepted(topology: seq<MemData>, startAddr: nat, size: nat): Result<(nat, nat), AccessError> {
    var banks := Banks(topology);
    match StartAddress(banks, startAddr)
    case Err(e) => Err(e)
    case Ok(a) =>
      match StartBank(banks, a)
      case Err(e) => Err(e)
      case Ok(start) => if size > Available(banks, start, a) then Err(TooLarge) else Ok((start, a))
  }

  lemma TransferStep(banks: seq<Bank>, it: nat, a: nat, a': nat, first: nat, size: nat, remaining: nat, seen: nat)
    requires it < |banks| && remaining > 0
    requires it + 1 < |banks| ==> a' == banks[it + 1].base
    ensures var n := Min(Rest(banks[it], a), size); var left := (remaining - n) % U64;
      && Performed(banks[it..], a, first, size, remaining, seen)
         == [Transfer(seen, n, first)] + Performed(banks[it + 1..], a', first, size, left, seen + n)
      && Leftover(banks[it..], a, size, remaining) == Leftover(banks[it + 1..], a', size, left)
  {
    assert banks[it..][1..] == banks[it + 1..];
    if it + 1 < |banks| {
      assert banks[it..][1] == banks[it + 1];
    }
  }

  /** The transfer loop; with nothing requested it does not start, so the size it clips to is the request. */
  method RunTransfers(banks: seq<Bank>, start: nat, first: nat, validatedSize: nat, size: nat)
    returns (transfers: seq<Transfer>, remaining: nat)
    requires start < |banks| && banks[start].base <= first <= End(banks[start])
    requires size != 0 ==> validatedSize == size
    ensures transfers == Performed(banks[start..], first, first, size, size, 0)
    ensures remaining == Leftover(banks[start..], first, size, size)
  {
    hide Performed, Leftover;
    var currentAddr := first;
    var bytesSeen: nat := 0;
    remaining := size;
    transfers := [];
    var it := start;
    while it < |banks| && remaining > 0
      invariant start <= it <= |banks|
      invariant it == start ==> currentAddr == first && remaining == size
      invariant size == 0 ==> remaining == 0
      invariant transfers + Performed(banks[it..], NextAddr(banks, it, start, first), first, size, remaining, bytesSeen)
                == Performed(banks[start..], first, first, size, size, 0)
      invariant Leftover(banks[it..], NextAddr(banks, it, start, first), size, remaining)
                == Leftover(banks[start..], first, size, size)
    {
      TransferStep(banks, it, NextAddr(banks, it, start, first), NextAddr(banks, it + 1, start, first),
                   first, size, remaining, bytesSeen);
      var availableBankSize;
      if it != start {
        currentAddr := banks[it].base;
        availableBankSize := banks[it].size;
      } else {
        availableBankSize := banks[it].size - (currentAddr - banks[it].base);
      }
      var bytesToEdit := Min(availableBankSize, validatedSize);
      assert bytesToEdit == Min(Rest(banks[it], NextAddr(banks, it, start, first)), size);
      ghost var done, tail := transfers, Performed(banks[it + 1..], NextAddr(banks, it + 1, start, first), first, size,
                                                   (remaining - bytesToEdit) % U64, bytesSeen + bytesToEdit);
      transfers := transfers + [Transfer(bytesSeen, bytesToEdit, first)];
      assert transfers + tail == done + ([Transfer(bytesSeen, bytesToEdit, first)] + tail);
      remaining := (remaining - bytesToEdit) % U64;
      bytesSeen := bytesSeen + bytesToEdit;
      it := it + 1;
    }
    LoopEnds(banks[it..], NextAddr(banks, it, start, first), first, size, remaining, bytesSeen);
  }

  lemma {:induction false} LoopEnds(banks: seq<Bank>, a: nat, first: nat, size: nat, remaining: nat, seen: nat)
    requires banks == [] || remaining == 0
    ensures Performed(banks, a, first, size, remaining, seen) == []
    ensures Leftover(banks, a, size, remaining) == remaining
  {
  }

  function NextAddr(banks: seq<Bank>, it: nat, start: nat, first: nat): nat {
    if it == start || it >= |banks| then first else banks[it].base
  }

  // ----- Code against documentation -----

  function BytesOf(t: Transfer): nat { t.bytes }
  function Moved(ts: seq<Transfer>): nat { Sum(ts, BytesOf) }

  predicate Inside(t: Transfer, b: Bank) { b.base <= t.addr && t.addr + t.bytes <= End(b) }

  lemma MovedCons(t: Transfer, rest: seq<Transfer>, k: nat)
    ensures Moved([t] + rest) == t.bytes + Moved(rest)
    ensures k <= |rest| ==> Moved(([t] + rest)[..k + 1]) == t.bytes + Moved(rest[..k])
  {
    assert ([t] + rest)[1..] == rest;
    if k <= |rest| {
      assert ([t] + rest)[..k + 1][1..] == rest[..k];
    }
  }

  lemma DocumentedStep(banks: seq<Bank>, a: nat, remaining: nat, seen: nat)
    requires banks != []
    ensures remaining == 0 ==> Documented(banks, a, remaining, seen) == []
    ensures remaining > 0 ==>
      var n := Min(Rest(banks[0], a), remaining);
      var rest := if |banks| == 1 then [] else Documented(banks[1..], banks[1].base, remaining - n, seen + n);
      Documented(banks, a, remaining, seen) == [Transfer(seen, n, a)] + rest
  {
    hide Rest;
  }

  lemma FirstInside(b: Bank, a: nat, remaining: nat, seen: nat)
    requires b.base <= a <= End(b)
    ensures Inside(Transfer(seen, Min(Rest(b, a), remaining), a), b)
    ensures Rest(b, b.base) == b.size
  {
  }

  /** The documented transfers move the whole request, fill the buffer in order and stay inside used banks. */
  lemma {:induction false} DocumentedIsComplete(banks: seq<Bank>, a: nat, remaining: nat, seen: nat, k: nat)
    requires banks != [] && banks[0].base <= a <= End(banks[0])
    requires remaining <= Rest(banks[0], a) + Sum(banks[1..], SizeOf)
    ensures var ts := Documented(banks, a, remaining, seen);
      && Moved(ts) == remaining
      && (k < |ts| ==> ts[k].bufferOffset == seen + Moved(ts[..k]))
      && (k < |ts| ==> exists b | b in banks :: Inside(ts[k], b))
  {
    hide Documented, Sum, Rest, Inside;
    SumEmpty(BytesOf);
    DocumentedStep(banks, a, remaining, seen);
    if remaining > 0 {
      var n := Min(Rest(banks[0], a), remaining);
      var t := Transfer(seen, n, a);
      var rest := if |banks| == 1 then [] else Documented(banks[1..], banks[1].base, remaining - n, seen + n);
      var ts := [t] + rest;
      SumHead(banks);
      MovedCons(t, rest, if k == 0 then 0 else k - 1);
      FirstInside(banks[0], a, remaining, seen);
      assert ts[..0] == [];
      if |banks| > 1 {
        SumHead(banks[1..]);
        FirstInside(banks[1], banks[1].base, remaining, seen);
        DocumentedIsComplete(banks[1..], banks[1].base, remaining - n, seen + n, if k == 0 then 0 else k - 1);
        if 0 < k < |ts| {
          var b :| b in banks[1..] && Inside(rest[k - 1], b);
          assert b in banks;
        }
      }
    }
  }

  /** A request that goes past a bank has a documented transfer at the base of a later, non-empty bank. */
  lemma {:induction false} LeavesBank(banks: seq<Bank>, remaining: nat, seen: nat) returns (k: nat)
    requires banks != [] && 0 < remaining <= Sum(banks, SizeOf)
    ensures var ts := Documented(banks, banks[0].base, remaining, seen);
      k < |ts| && exists b | b in banks :: NonEmpty(b) && ts[k].addr == b.base
  {
    if NonEmpty(banks[0]) {
      k := 0;
      assert banks[0] in banks;
    } else {
      assert |banks| > 1;
      k := LeavesBank(banks[1..], remaining, seen);
      var rest := Documented(banks[1..], banks[1].base, remaining, seen);
      var b :| b in banks[1..] && NonEmpty(b) && rest[k].addr == b.base;
      assert b in banks;
      k := k + 1;
    }
  }

  lemma {:induction false} PerformedStays(banks: seq<Bank>, a: nat, first: nat, size: nat, remaining: nat, seen: nat)
    ensures forall t | t in Performed(banks, a, first, size, remaining, seen) :: t.addr == first
  {
    if banks != [] && remaining != 0 && |banks| > 1 {
      var n := Min(Rest(banks[0], a), size);
      PerformedStays(banks[1..], banks[1].base, first, size, (remaining - n) % U64, seen + n);
    }
  }

  lemma {:induction false} OneBank(banks: seq<Bank>, a: nat, size: nat)
    requires banks != [] && 0 < size <= Rest(banks[0], a)
    ensures Performed(banks, a, a, size, size, 0) == [Transfer(0, size, a)] == Documented(banks, a, size, 0)
    ensures Leftover(banks, a, size, size) == 0
  {
  }

  lemma {:induction false} SeveralBanks(banks: seq<Bank>, a: nat, size: nat)
    requires banks != [] && Rest(banks[0], a) < size <= Rest(banks[0], a) + Sum(banks[1..], SizeOf)
    requires forall b | b in banks[1..] && NonEmpty(b) :: b.base != a
    ensures Performed(banks, a, a, size, size, 0) != Documented(banks, a, size, 0)
  {
    var n, after := Rest(banks[0], a), banks[1..];
    assert after != [];
    var k := LeavesBank(after, size - n, n);
    var rest := Documented(after, after[0].base, size - n, n);
    var b :| b in after && NonEmpty(b) && rest[k].addr == b.base;
    var ts := Documented(banks, a, size, 0);
    assert ts == [Transfer(0, n, a)] + rest;
    assert ts[k + 1].addr != a;
    PerformedStays(banks, a, a, size, size, 0);
    assert ts[k + 1] in ts;
  }

  /**
   The code does what is documented exactly for requests that end in the starting bank, and those
   are one transfer of the requested size at the requested address.
   */
  lemma DocumentedIffOneBank(banks: seq<Bank>, start: nat, a: nat, size: nat)
    requires SortedBy(banks, BaseOf) && Disjoint(banks)
    requires start < |banks| && Contains(banks[start], a)
    requires 0 < size <= Available(banks, start, a)
    ensures Performed(banks[start..], a, a, size, size, 0) == Documented(banks[start..], a, size, 0)
            <==> size <= Rest(banks[start], a)
    ensures size <= Rest(banks[start], a) ==>
      && Performed(banks[start..], a, a, size, size, 0) == [Transfer(0, size, a)]
      && Leftover(banks[start..], a, size, size) == 0
  {
    hide Disjoint, SortedBy, Performed, Documented, Leftover, Sum;
    ContainsEnds(banks[start], a);
    var from, after := banks[start..], banks[start + 1..];
    if size <= Rest(banks[start], a) {
      OneBank(from, a, size);
    } else {
      AvailableBound(banks, start, a);
      assert from[1..] == after;
      forall b | b in after && NonEmpty(b) ensures b.base != a {
        var j :| 0 <= j < |after| && after[j] == b;
        InOrder(banks, start, start + 1 + j);
      }
      SeveralBanks(from, a, size);
    }
  }

  // ----- What the loop does past its starting bank -----

  /** Some number of these banks holds exactly r bytes. */
  ghost predicate Filled(banks: seq<Bank>, r: nat) {
    exists k: nat :: k <= |banks| && Sum(banks[..k], SizeOf) == r
  }

  /** The request ends in its starting bank, or exactly at the end of a later one. */
  ghost predicate EndsOnBankEnd(banks: seq<Bank>, a: nat, size: nat)
    requires banks != []
  {
    size <= Rest(banks[0], a) || Filled(banks[1..], size - Rest(banks[0], a))
  }

  lemma FilledZero(banks: seq<Bank>)
    ensures Filled(banks, 0)
  {
    assert Sum(banks[..0], SizeOf) == 0;
  }

  lemma FilledStep(banks: seq<Bank>, r: nat)
    requires banks != [] && r > 0
    ensures Filled(banks, r) <==> banks[0].size <= r && Filled(banks[1..], r - banks[0].size)
  {
    if k: nat :| k <= |banks| && Sum(banks[..k], SizeOf) == r {
      assert k > 0 by { assert banks[..0] == []; }
      assert banks[..k][1..] == banks[1..][..k - 1];
    }
    if banks[0].size <= r && Filled(banks[1..], r - banks[0].size) {
      var k: nat :| k <= |banks[1..]| && Sum(banks[1..][..k], SizeOf) == r - banks[0].size;
      assert banks[..k + 1][1..] == banks[1..][..k];
      assert Sum(banks[..k + 1], SizeOf) == r;
    }
  }

  /** One turn of the loop, in bytes. */
  lemma MovedStep(banks: seq<Bank>, a: nat, first: nat, size: nat, remaining: nat, seen: nat)
    requires banks != [] && remaining > 0
    ensures var n := Min(Rest(banks[0], a), size); var left := (remaining - n) % U64;
      var ts := Performed(banks, a, first, size, remaining, seen);
      if |banks| == 1 then
        |ts| == 1 && Moved(ts) == n && Leftover(banks, a, size, remaining) == left
      else
        var rest := Performed(banks[1..], banks[1].base, first, size, left, seen + n);
        && |ts| == 1 + |rest| && Moved(ts) == n + Moved(rest)
        && Leftover(banks, a, size, remaining) == Leftover(banks[1..], banks[1].base, size, left)
  {
    var n := Min(Rest(banks[0], a), size);
    var left := (remaining - n) % U64;
    var rest := if |banks| == 1 then [] else Performed(banks[1..], banks[1].base, first, size, left, seen + n);
    assert Performed(banks, a, first, size, remaining, seen) == [Transfer(seen, n, first)] + rest;
    assert ([Transfer(seen, n, first)] + rest)[1..] == rest;
    assert |banks| == 1 ==> Moved(rest) == 0;
  }

  lemma Subtract(x: nat, y: nat)
    requires x < U64 && y <= U64
    ensures (x - y) % U64 == if y <= x then x - y else U64 + x - y
  {
  }

  lemma SumHead(banks: seq<Bank>)
    requires banks != []
    ensures Sum(banks, SizeOf) == banks[0].size + Sum(banks[1..], SizeOf)
    ensures |banks| == 1 ==> Sum(banks[1..], SizeOf) == 0
  {
  }

  /** Once more has been moved than was asked for, the count has wrapped and the loop runs to the last bank. */
  lemma {:induction false} RunsOn(banks: seq<Bank>, first: nat, size: nat, remaining: nat, seen: nat)
    requires banks != [] && Sum(banks, SizeOf) < remaining < U64
    ensures Leftover(banks, banks[0].base, size, remaining) > 0
    ensures |Performed(banks, banks[0].base, first, size, remaining, seen)| == |banks|
  {
    hide Performed, Leftover, Moved, Sum;
    var n := Min(banks[0].size, size);
    SumHead(banks);
    MovedStep(banks, banks[0].base, first, size, remaining, seen);
    Subtract(remaining, n);
    if |banks| > 1 {
      RunsOn(banks[1..], first, size, remaining - n, seen + n);
    }
  }

  /** Later banks, with r bytes still to be moved: stops in time exactly when some of them hold exactly r bytes. */
  lemma {:induction false} LaterBanks(banks: seq<Bank>, first: nat, size: nat, r: nat, seen: nat)
    requires banks != [] && 0 < r < size < U64 && r <= Sum(banks, SizeOf) < U64
    ensures var ts := Performed(banks, banks[0].base, first, size, r, seen);
      var left := Leftover(banks, banks[0].base, size, r);
      && (Filled(banks, r) ==> Moved(ts) == r && left == 0)
      && (!Filled(banks, r) ==> Moved(ts) > r && left > 0 && |ts| == |banks|)
  {
    hide Filled, Performed, Leftover, Sum;
    var n := Min(banks[0].size, size);
    var left := (r - n) % U64;
    FilledStep(banks, r);
    SumHead(banks);
    MovedStep(banks, banks[0].base, first, size, r, seen);
    Subtract(r, n);
    if banks[0].size > r {
      if |banks| > 1 {
        RunsOn(banks[1..], first, size, left, seen + n);
      }
    } else if banks[0].size == r {
      FilledZero(banks[1..]);
      if |banks| > 1 {
        LoopEnds(banks[1..], banks[1].base, first, size, 0, seen + n);
        SumEmpty(BytesOf);
      }
    } else {
      LaterBanks(banks[1..], first, size, r - n, seen + n);
    }
  }

  /**
   What is moved: exactly the request when it ends in its starting bank or exactly at the end of a
   later bank; otherwise more than the request, past the end of the caller's buffer, by a transfer
   for every remaining bank, and the request is then reported as incomplete.
   */
  lemma OverrunsUnlessOnBankEnd(banks: seq<Bank>, a: nat, size: nat)
    requires banks != [] && banks[0].base <= a < End(banks[0])
    requires 0 < size <= Rest(banks[0], a) + Sum(banks[1..], SizeOf) < U64
    ensures var ts := Performed(banks, a, a, size, size, 0); var left := Leftover(banks, a, size, size);
      && (EndsOnBankEnd(banks, a, size) ==> Moved(ts) == size && left == 0)
      && (!EndsOnBankEnd(banks, a, size) ==> Moved(ts) > size && left > 0 && |ts| == |banks|)
  {
    hide Filled, Sum, Performed, Leftover;
    var n := Rest(banks[0], a);
    MovedStep(banks, a, a, size, size, 0);
    SumHead(banks);
    Subtract(size, Min(n, size));
    if size <= n {
      OneBank(banks, a, size);
      if |banks| > 1 {
        LoopEnds(banks[1..], banks[1].base, a, size, 0, size);
        SumEmpty(BytesOf);
      }
    } else {
      LaterBanks(banks[1..], a, size, size - n, n);
    }
  }

  /** The bytes of bank k that a request starting at a in bank 0 could use. */
  function BankShare(banks: seq<Bank>, a: nat, k: nat): nat
    requires k < |banks|
  {
    if k == 0 then Rest(banks[0], a) else banks[k].size
  }

  /**
   Transfer k: appended to the buffer, clipped to its bank and to the whole request rather than to
   what is left of it, and always at the first address.
   */
  lemma {:induction false} PerformedShape(
    banks: seq<Bank>, a: nat, first: nat, size: nat, remaining: nat, seen: nat, k: nat)
    requires k < |Performed(banks, a, first, size, remaining, seen)|
    ensures var ts := Performed(banks, a, first, size, remaining, seen);
      && |ts| <= |banks|
      && ts[k] == Transfer(seen + Moved(ts[..k]), Min(BankShare(banks, a, k), size), first)
  {
    var n := Min(Rest(banks[0], a), size);
    var left := (remaining - n) % U64;
    var ts := Performed(banks, a, first, size, remaining, seen);
    var rest := if |banks| == 1 then [] else Performed(banks[1..], banks[1].base, first, size, left, seen + n);
    assert ts == [Transfer(seen, n, first)] + rest;
    ShorterThanBanks(banks, a, first, size, remaining, seen);
    if k > 0 {
      hide Performed;
      PerformedShape(banks[1..], banks[1].base, first, size, left, seen + n, k - 1);
      assert ts[k] == rest[k - 1];
      assert ts[..k] == [ts[0]] + rest[..k - 1];
      assert ts[..k][1..] == rest[..k - 1];
    }
  }

  lemma {:induction false} ShorterThanBanks(banks: seq<Bank>, a: nat, first: nat, size: nat, remaining: nat, seen: nat)
    ensures |Performed(banks, a, first, size, remaining, seen)| <= |banks|
  {
    if banks != [] && remaining != 0 && |banks| > 1 {
      var n := Min(Rest(banks[0], a), size);
      ShorterThanBanks(banks[1..], banks[1].base, first, size, (remaining - n) % U64, seen + n);
    }
  }

  /**
   What an accepted request of size bytes from address a does, banks being those from the starting
   one on: the transfers of PerformedShape.  Where the banks hold fewer than 2^64 bytes from there,
   it moves exactly the request when that ends in its starting bank or at the end of a later one, and
   else overruns the caller's buffer and reports that it is incomplete.
   */
  ghost predicate Does(r: Outcome, banks: seq<Bank>, a: nat, size: nat)
    requires banks != []
  {
    var ts := r.transfers;
    if size == 0 then r == Outcome([], None)
    else
      && |ts| <= |banks|
      && (forall k: nat | k < |ts| :: ts[k] == Transfer(Moved(ts[..k]), Min(BankShare(banks, a, k), size), a))
      && (Rest(banks[0], a) + Sum(banks[1..], SizeOf) < U64 ==>
            if EndsOnBankEnd(banks, a, size) then Moved(ts) == size && r.error == None
            else Moved(ts) > size && |ts| == |banks| && r.error == Some(Incomplete))
  }

  /** How the loop's results are reported. */
  function Report(transfers: seq<Transfer>, remaining: nat): Outcome {
    Outcome(transfers, if remaining > 0 then Some(Incomplete) else None)
  }

  lemma PerformedDoes(banks: seq<Bank>, a: nat, size: nat)
    requires banks != [] && banks[0].base <= a < End(banks[0])
    requires size <= Rest(banks[0], a) + Sum(banks[1..], SizeOf)
    ensures Does(Report(Performed(banks, a, a, size, size, 0), Leftover(banks, a, size, size)), banks, a, size)
  {
    hide Sum, Moved, EndsOnBankEnd, BankShare;
    if size > 0 {
      hide Performed, Leftover;
      if Rest(banks[0], a) + Sum(banks[1..], SizeOf) < U64 {
        OverrunsUnlessOnBankEnd(banks, a, size);
      }
      ShorterThanBanks(banks, a, a, size, size, 0);
      var ts := Performed(banks, a, a, size, size, 0);
      forall k: nat | k < |ts| ensures ts[k] == Transfer(Moved(ts[..k]), Min(BankShare(banks, a, k), size), a) {
        PerformedShape(banks, a, a, size, size, 0, k);
      }
    }
  }

  lemma AcceptedStart(topology: seq<MemData>, startAddr: nat, size: nat)
    requires Accepted(topology, startAddr, size).Ok?
    ensures var (start, a) := Accepted(topology, startAddr, size).value; var banks := Banks(topology);
      && start < |banks| && banks[start].base <= a < End(banks[start])
      && size <= Available(banks, start, a)
      && Available(banks, start, a) == (Rest(banks[start], a) + Sum(banks[start + 1..], SizeOf)) % U64
  {
    hide Banks, Sum, Available;
    var (start, a) := Accepted(topology, startAddr, size).value;
    ContainsEnds(Banks(topology)[start], a);
    AvailableBound(Banks(topology), start, a);
  }

  method PerformMemoryAction(topology: seq<MemData>, startAddr: u64, size: u64, read: bool) returns (r: Outcome)
    ensures Accepted(topology, startAddr, size).Err? ==>
      r == Outcome([], Some(Accepted(topology, startAddr, size).error))
    ensures Accepted(topology, startAddr, size).Ok? ==>
      var (start, a) := Accepted(topology, startAddr, size).value;
      start < |Banks(topology)| && Does(r, Banks(topology)[start..], a, size)
  {
    hide Banks, Does, Available, Sum;
    var banks := GetDdrBanks(topology);
    var addr := StartAddress(banks, startAddr);
    if addr.Err? {
      return Outcome([], Some(addr.error));
    }
    var found := StartBank(banks, addr.value);
    if found.Err? {
      return Outcome([], Some(found.error));
    }
    var available := Available(banks, found.value, addr.value);
    if size > available {
      return Outcome([], Some(TooLarge));
    }
    AcceptedStart(topology, startAddr, size);
    var validatedSize := size;
    if size == 0 && read {
      validatedSize := available;
    }
    var transfers, remaining := RunTransfers(banks, found.value, addr.value, validatedSize, size);
    r := Report(transfers, remaining);
    assert banks[found.value..][1..] == banks[found.value + 1..];
    PerformedDoes(banks[found.value..], addr.value, size);
  }

  lemma TwoBanks(m: MemData, n: MemData, b: Bank, c: Bank)
    requires Selected([m]) == [b] && Selected([n]) == [c] && b.base <= c.base
    ensures Banks([m, n]) == [b, c]
  {
    assert [m, n][1..] == [n] && [m][1..] == [] && [b, c][1..] == [c] && [c][1..] == [];
    assert Selected([m, n]) == [b] + Selected([n]);
    assert StableSort([c], BaseOf) == Insert(c, [], BaseOf) == [c];
    assert StableSort([b, c], BaseOf) == Insert(b, [c], BaseOf) == [b] + [c];
  }

  /**
   Used banks of 1 KB at address 0 and 4 KB at 4096: a request of 2048 bytes from address 0 is
   accepted, 3072 bytes go into its buffer, and 2^64 - 1024 bytes are left over.
   */
  lemma OverrunExample()
    ensures var topology := [MemData(true, false, 0, 1), MemData(true, false, 4096, 4)];
      var banks := Banks(topology);
      && Accepted(topology, 0, 2048) == Ok((0, 0))
      && Performed(banks, 0, 0, 2048, 2048, 0) == [Transfer(0, 1024, 0), Transfer(1024, 2048, 0)]
      && Leftover(banks, 0, 2048, 2048) == U64 - 1024
  {
    var b0, b1 := Bank(0, 1024), Bank(4096, 4096);
    var m0, m1 := MemData(true, false, 0, 1), MemData(true, false, 4096, 4);
    assert [m0][1..] == [] && [m1][1..] == [] && Selected([m0]) == [b0] && Selected([m1]) == [b1];
    TwoBanks(m0, m1, b0, b1);
    hide Banks, Selected, StableSort;
    var banks := [b0, b1];
    assert banks[1..] == [b1] && [b1][1..] == [] && banks[0..] == banks;
    assert Sum([b1], SizeOf) == 4096 && Sum(banks, SizeOf) == 5120;
  }

  /** An accepted read of size 0 moves nothing, although there is memory to read from its start address on. */
  lemma EmptyReadMovesNothing(topology: seq<MemData>, startAddr: nat)
    requires Accepted(topology, startAddr, 0).Ok?
    ensures var (start, a) := Accepted(topology, startAddr, 0).value; var banks := Banks(topology)[start..];
      && Performed(banks, a, a, 0, 0, 0) == []
      && Leftover(banks, a, 0, 0) == 0
      && Rest(banks[0], a) > 0
      && Available(Banks(topology), start, a) == (Rest(banks[0], a) + Sum(banks[1..], SizeOf)) % U64
  {
    hide Banks, Sum, Available;
    var (start, a) := Accepted(topology, startAddr, 0).value;
    var banks := Banks(topology);
    AcceptedStart(topology, startAddr, 0);
    assert banks[start..][1..] == banks[start + 1..];
  }

  /** One used kilobyte at address 0: reading it without a size is accepted and reads none of its 1024 bytes. */
  lemma EmptyReadExample()
    ensures var topology := [MemData(true, false, 0, 1)];
      && Accepted(topology, 0, 0) == Ok((0, 0))
      && Available(Banks(topology), 0, 0) == 1024
      && Performed(Banks(topology), 0, 0, 0, 0, 0) == []
  {
    var m := MemData(true, false, 0, 1);
    var b := Bank(0, 1024);
    assert [m][1..] == [] && [b][1..] == [] && [b][0..] == [b];
    assert Selected([]) == [] && StableSort<Bank>([], BaseOf) == [];
    assert Selected([m]) == [b] + [] == [b];
    assert StableSort([b], BaseOf) == Insert(b, [], BaseOf) == [b] + [];
    assert Banks([m]) == [b];
    assert Sum([b], SizeOf) == 1024;
  }

  /**
   From a valid start address, a request is accepted exactly when that many used-bank bytes lie at or
   above it, their number taken modulo 2^64.
   */
  lemma AcceptedIffUsable(topology: seq<MemData>, startAddr: nat, size: nat)
    requires Disjoint(Banks(topology))
    ensures var banks := Banks(topology); var a := StartAddress(banks, startAddr);
      Accepted(topology, startAddr, size).Ok? <==>
      a.Ok? && StartBank(banks, a.value).Ok? && size <= UsableFrom(banks, a.value) % U64
  {
    hide StableSort, Disjoint, Available, UsableFrom, SortedBy;
    var banks := Banks(topology);
    StableSortSorts(Selected(topology), BaseOf);
    var a := StartAddress(banks, startAddr);
    if a.Ok? && StartBank(banks, a.value).Ok? {
      AvailableIsUsable(banks, StartBank(banks, a.value).value, a.value);
    }
  }

  // ----- The rule over the topology -----

  predicate Counts(m: MemData) { m.used && !m.streaming }

  function Bytes(m: MemData): nat { m.sizeKb * 1024 % U64 }

  lemma {:induction false} SelectedMembers(topology: seq<MemData>, b: Bank)
    ensures b in Selected(topology) <==> exists m | m in topology :: Counts(m) && b.base == m.base && b.size == Bytes(m)
  {
    if topology != [] {
      SelectedMembers(topology[1..], b);
      assert topology[0] in topology;
      assert forall m | m in topology :: m == topology[0] || m in topology[1..];
      if m :| m in topology[1..] && Counts(m) && b.base == m.base && b.size == Bytes(m) {
        assert m in topology;
      }
    }
  }

  /** The banks: those in use and not streaming, with their size in bytes, by base address. */
  lemma BanksAre(topology: seq<MemData>)
    ensures SortedBy(Banks(topology), BaseOf)
    ensures forall b :: b in Banks(topology) <==>
                        exists m | m in topology :: Counts(m) && b.base == m.base && b.size == Bytes(m)
  {
    hide StableSort, Selected, SortedBy;
    StableSortSorts(Selected(topology), BaseOf);
    forall b ensures b in Banks(topology) <==>
                     exists m | m in topology :: Counts(m) && b.base == m.base && b.size == Bytes(m)
    {
      assert b in Banks(topology) <==> b in multiset(Banks(topology));
      SelectedMembers(topology, b);
    }
  }

  /** A used bank's bytes at or above an address. */
  function EntryAbove(m: MemData, a: nat): nat {
    if !Counts(m) then 0
    else if a <= m.base then Bytes(m)
    else if a < m.base + Bytes(m) then m.base + Bytes(m) - a
    else 0
  }

  function AboveAll(a: nat): MemData -> nat { (m: MemData) => EntryAbove(m, a) }

  /** The bytes of used banks at or above an address. */
  function UsableBytes(topology: seq<MemData>, a: nat): nat { Sum(topology, AboveAll(a)) }

  lemma {:induction false} SelectedSum(topology: seq<MemData>, a: nat)
    ensures Sum(Selected(topology), Above(a)) == UsableBytes(topology, a)
  {
    if topology != [] {
      SelectedSum(topology[1..], a);
      var m := topology[0];
      if Counts(m) {
        var b := Bank(m.base, m.sizeKb * 1024 % U64);
        assert Selected(topology) == [b] + Selected(topology[1..]);
        assert ([b] + Selected(topology[1..]))[1..] == Selected(topology[1..]);
      } else {
        assert Selected(topology) == [] + Selected(topology[1..]) == Selected(topology[1..]);
      }
    }
  }

  lemma BanksSum(topology: seq<MemData>, a: nat)
    ensures UsableFrom(Banks(topology), a) == UsableBytes(topology, a)
  {
    hide StableSort, Selected, Sum, UsableBytes;
    StableSortSorts(Selected(topology), BaseOf);
    SumPermutes(Banks(topology), Selected(topology), Above(a));
    SelectedSum(topology, a);
  }

  /** No two entries in use overlap. */
  ghost predicate NoOverlap(topology: seq<MemData>) {
    forall i, j | 0 <= i < j < |topology| && Counts(topology[i]) && Counts(topology[j])
                  && Bytes(topology[i]) > 0 && Bytes(topology[j]) > 0 ::
      || topology[i].base + Bytes(topology[i]) <= topology[j].base
      || topology[j].base + Bytes(topology[j]) <= topology[i].base
  }

  lemma DisjointCons(b: Bank, banks: seq<Bank>)
    ensures Disjoint([b] + banks) <==> Disjoint(banks) && forall c | c in banks :: Apart(b, c)
  {
    hide Apart;
    var all := [b] + banks;
    if Disjoint(all) {
      forall i, j | 0 <= i < j < |banks| ensures Apart(banks[i], banks[j]) {
        assert Apart(all[i + 1], all[j + 1]);
      }
      forall c | c in banks ensures Apart(b, c) {
        var k :| 0 <= k < |banks| && banks[k] == c;
        assert Apart(all[0], all[k + 1]);
      }
    }
    if Disjoint(banks) && forall c | c in banks :: Apart(b, c) {
      forall i, j | 0 <= i < j < |all| ensures Apart(all[i], all[j]) {
        assert all[j] == banks[j - 1] && banks[j - 1] in banks;
        if i > 0 {
          assert all[i] == banks[i - 1];
        }
      }
    }
  }

  lemma {:induction false} DisjointInsert(b: Bank, banks: seq<Bank>)
    requires Disjoint(banks) && forall c | c in banks :: Apart(b, c)
    ensures Disjoint(Insert(b, banks, BaseOf))
  {
    hide Disjoint;
    if banks == [] || BaseOf(b) <= BaseOf(banks[0]) {
      DisjointCons(b, banks);
    } else {
      assert banks == [banks[0]] + banks[1..];
      DisjointCons(banks[0], banks[1..]);
      DisjointInsert(b, banks[1..]);
      var rest := Insert(b, banks[1..], BaseOf);
      InsertKeeps(b, banks[1..], BaseOf);
      forall c | c in rest ensures Apart(banks[0], c) {
        assert c in multiset(rest);
        assert Apart(b, banks[0]);
      }
      DisjointCons(banks[0], rest);
    }
  }

  lemma {:induction false} DisjointSort(banks: seq<Bank>)
    requires Disjoint(banks)
    ensures Disjoint(StableSort(banks, BaseOf))
  {
    hide Disjoint;
    if banks == [] {
      assert StableSort(banks, BaseOf) == banks;
    } else {
      assert banks == [banks[0]] + banks[1..];
      DisjointCons(banks[0], banks[1..]);
      DisjointSort(banks[1..]);
      StableSortSorts(banks[1..], BaseOf);
      var rest := StableSort(banks[1..], BaseOf);
      forall c | c in rest ensures Apart(banks[0], c) {
        assert c in multiset(rest);
      }
      DisjointInsert(banks[0], rest);
    }
  }

  lemma {:induction false} DisjointSelected(topology: seq<MemData>)
    requires NoOverlap(topology)
    ensures Disjoint(Selected(topology))
  {
    if topology != [] {
      var m, rest := topology[0], topology[1..];
      assert forall k | 0 <= k < |rest| :: topology[k + 1] == rest[k];
      DisjointSelected(rest);
      if Counts(m) {
        var b := Bank(m.base, m.sizeKb * 1024 % U64);
        forall c | c in Selected(rest) ensures Apart(b, c) {
          SelectedMembers(rest, c);
          var n :| n in rest && Counts(n) && c.base == n.base && c.size == Bytes(n);
          var k :| 0 <= k < |rest| && rest[k] == n;
          assert topology[0] == m && topology[k + 1] == n;
        }
        DisjointCons(b, Selected(rest));
      } else {
        assert Selected(topology) == [] + Selected(rest) == Selected(rest);
      }
    }
  }

  /** An entry in use with at least one byte. */
  predicate Usable(m: MemData) { Counts(m) && Bytes(m) > 0 }

  /** Where a request starts: at its address or, for address 0, at the least base of a usable entry. */
  ghost predicate StartsAt(topology: seq<MemData>, startAddr: nat, a: nat) {
    if startAddr != 0 then a == startAddr
    else (exists m | m in topology :: Usable(m) && m.base == a) && forall m | m in topology && Usable(m) :: a <= m.base
  }

  /** An entry in use that holds an address and ends inside the 64-bit address space. */
  predicate HoldsAddress(m: MemData, a: nat) {
    Counts(m) && m.base <= a < m.base + Bytes(m) < U64
  }

  lemma StartAddressIs(topology: seq<MemData>, startAddr: nat)
    ensures var r := StartAddress(Banks(topology), startAddr);
      && (r == Err(NoValidBanks) <==> forall m | m in topology :: !Usable(m))
      && (r.Err? ==> r == Err(NoValidBanks))
      && (r.Ok? ==> StartsAt(topology, startAddr, r.value))
  {
    hide Banks;
    BanksAre(topology);
    var banks := Banks(topology);
    var i := FindIf(banks, NonEmpty);
    if i == |banks| {
      forall m | m in topology ensures !Usable(m) {
        if Counts(m) {
          var b := Bank(m.base, m.sizeKb * 1024 % U64);
          assert b in banks;
          var k :| 0 <= k < |banks| && banks[k] == b;
          assert !NonEmpty(banks[k]);
        }
      }
    } else {
      assert banks[i] in banks;
      var m :| m in topology && Counts(m) && banks[i].base == m.base && banks[i].size == Bytes(m);
      assert Usable(m);
      forall n | n in topology && Usable(n) ensures banks[i].base <= n.base {
        var b := Bank(n.base, n.sizeKb * 1024 % U64);
        assert b in banks;
        var k :| 0 <= k < |banks| && banks[k] == b;
        assert NonEmpty(b) && k >= i;
        assert k > i ==> BaseOf(banks[i]) <= BaseOf(banks[k]);
      }
    }
  }

  lemma ContainsIs(b: Bank, m: MemData, a: nat)
    requires Counts(m) && b.base == m.base && b.size == Bytes(m)
    ensures Contains(b, a) <==> HoldsAddress(m, a)
  {
    hide Bytes;
  }

  lemma StartBankIs(topology: seq<MemData>, a: nat)
    ensures var r := StartBank(Banks(topology), a);
      && (r == Err(InvalidStart) <==> forall m | m in topology :: !HoldsAddress(m, a))
      && (r.Err? ==> r == Err(InvalidStart))
  {
    hide Banks, Contains, HoldsAddress, SortedBy;
    BanksAre(topology);
    var banks := Banks(topology);
    var i := FindIf(banks, (b: Bank) => Contains(b, a));
    if i == |banks| {
      forall m | m in topology ensures !HoldsAddress(m, a) {
        if Counts(m) {
          var b := Bank(m.base, m.sizeKb * 1024 % U64);
          ContainsIs(b, m, a);
          assert b in banks;
          var k :| 0 <= k < |banks| && banks[k] == b;
          assert !Contains(banks[k], a);
        } else {
          NotHeld(m, a);
        }
      }
    } else {
      assert banks[i] in banks;
      var m :| m in topology && Counts(m) && banks[i].base == m.base && banks[i].size == Bytes(m);
      ContainsIs(banks[i], m, a);
      assert HoldsAddress(m, a);
    }
  }

  lemma NotHeld(m: MemData, a: nat)
    requires !Counts(m)
    ensures !HoldsAddress(m, a)
  {
  }

  /**
   The rule of acceptance, over the topology alone.  Without a usable entry there are no valid banks.
   Otherwise the request starts at its address or, for address 0, at the least base of a usable entry.
   That start is invalid exactly when no entry in use holds it.  From a valid start, where entries do
   not overlap, a request is accepted there exactly when its size is at most the number, modulo 2^64,
   of usable bytes at or above it, and is too large otherwise.
   */
  lemma AcceptanceRule(topology: seq<MemData>, startAddr: nat, size: nat, a: nat)
    ensures var r := Accepted(topology, startAddr, size);
      && (r == Err(NoValidBanks) <==> forall m | m in topology :: !Usable(m))
      && (r.Ok? ==> StartsAt(topology, startAddr, r.value.1))
      && (r != Err(NoValidBanks) && StartsAt(topology, startAddr, a) ==>
            if forall m | m in topology :: !HoldsAddress(m, a) then r == Err(InvalidStart)
            else NoOverlap(topology) ==>
              if size <= UsableBytes(topology, a) % U64 then r.Ok? && r.value.1 == a else r == Err(TooLarge))
  {
    hide Banks, Available, UsableBytes, NoOverlap, HoldsAddress, Usable, StartsAt;
    StartAddressIs(topology, startAddr);
    var s := StartAddress(Banks(topology), startAddr);
    if s.Ok? && StartsAt(topology, startAddr, a) {
      assert s.value == a by { SameStart(topology, startAddr, s.value, a); }
      StartBankIs(topology, a);
      var b := StartBank(Banks(topology), a);
      if b.Ok? && NoOverlap(topology) {
        BanksSorted(topology);
        AvailableIsUsable(Banks(topology), b.value, a);
        BanksSum(topology, a);
      }
    }
  }

  lemma SameStart(topology: seq<MemData>, startAddr: nat, a: nat, b: nat)
    requires StartsAt(topology, startAddr, a) && StartsAt(topology, startAddr, b)
    ensures a == b
  {
  }

  lemma BanksSorted(topology: seq<MemData>)
    requires NoOverlap(topology)
    ensures SortedBy(Banks(topology), BaseOf) && Disjoint(Banks(topology))
  {
    hide NoOverlap, Disjoint, SortedBy, StableSort, Selected;
    StableSortSorts(Selected(topology), BaseOf);
    DisjointSelected(topology);
    DisjointSort(Selected(topology));
  }
}
