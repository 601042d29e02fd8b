/**
 Compute-unit lists and indices (core/common/xclbin_parser.cpp).  The order of the list returned by
 get_cus fixes the CU indices used everywhere; the encoded list configures the scheduler and the
 plain list is used for lookups, so the two must agree index by index.
 */
module ComputeUnits {
  import opened Common
  import opened Bits
  import opened Sorting

  datatype IpType = Kernel | PsKernel | OtherIp

  datatype Ip = Ip(kind: IpType, properties: nat, base: nat, name: string)

  /** The base address of a CU without one, static_cast<size_t>(-1), and where it sorts to. */
  const NO_BASE: nat := U64 - 1
  const LAST_BASE: nat := U64 - 0x100

  predicate IsValidCu(ip: Ip) { ip.kind.Kernel? || ip.kind.PsKernel? }

  /** properties & 0x00FE */
  function IntrId(ip: Ip): nat { And(ip.properties, 0x00FE) }

  /** (properties & 0xFF00) >> 8 */
  function Control(ip: Ip): nat { And(ip.properties, 0xFF00) / 0x100 }

  function BaseAddr(ip: Ip): nat { if ip.base == NO_BASE then LAST_BASE else ip.base }

  predicate CompareIntrId(l: Ip, r: Ip) {
    if l.base == NO_BASE then false
    else if r.base == NO_BASE then true
    else IntrId(l) < IntrId(r)
  }

  /** The interrupt id is bits 7-1, the control value bits 15-8. */
  lemma MaskedFields(ip: Ip)
    ensures IntrId(ip) == ip.properties % 0x100 / 2 * 2
    ensures Control(ip) == ip.properties / 0x100 % 0x100
  {
    hide And, Pow2;
    PowersUsed();
    AndMask(ip.properties, 1, 8);
    AndMask(ip.properties, 8, 16);
    SecondByte(ip.properties);
  }

  lemma PowersUsed()
    ensures Pow2(1) == 2 && Pow2(8) == 0x100 && Pow2(16) == 0x1_0000
  {
    EightBits();
    Pow2Add(8, 8);
  }

  lemma SecondByte(x: nat)
    ensures x % 0x1_0000 / 0x100 * 0x100 / 0x100 == x / 0x100 % 0x100
  {
  }

  /**
   A strict weak order, as std::sort demands: CUs with an address by interrupt id, and the
   free-running CUs greatest.
   */
  lemma CompareIsStrictWeakOrder(a: Ip, b: Ip, c: Ip)
    ensures !CompareIntrId(a, a)
    ensures CompareIntrId(a, b) ==> !CompareIntrId(b, a)
    ensures CompareIntrId(a, b) && CompareIntrId(b, c) ==> CompareIntrId(a, c)
    ensures !CompareIntrId(a, b) && !CompareIntrId(b, c) ==> !CompareIntrId(a, c)
    ensures a.base != U64 - 1 && b.base == U64 - 1 ==> CompareIntrId(a, b)
    ensures a.base != U64 - 1 && b.base != U64 - 1 ==>
      (CompareIntrId(a, b) <==> a.properties % 0x100 / 2 < b.properties % 0x100 / 2)
  {
    hide IntrId;
    MaskedFields(a);
    MaskedFields(b);
  }

  // ----- get_cus -----

  function Valids(layout: seq<Ip>): seq<Ip> {
    if layout == [] then [] else (if IsValidCu(layout[0]) then [layout[0]] else []) + Valids(layout[1..])
  }

  lemma {:induction false} ValidsMembers(layout: seq<Ip>)
    ensures forall ip :: ip in Valids(layout) <==> ip in layout && IsValidCu(ip)
  {
    if layout != [] {
      ValidsMembers(layout[1..]);
      assert forall ip :: ip in layout <==> ip == layout[0] || ip in layout[1..];
    }
  }

  ghost predicate SortedByIntrId(ips: seq<Ip>) {
    forall i, j | 0 <= i < j < |ips| :: !CompareIntrId(ips[j], ips[i])
  }

  /** What std::sort with compare_intr_id promises; the order of equivalent CUs is left open. */
  ghost predicate IsIntrIdSort(sort: seq<Ip> -> seq<Ip>) {
    forall ips :: SortedByIntrId(sort(ips)) && multiset(sort(ips)) == multiset(ips)
  }

  function IntrKey(ip: Ip): nat { if ip.base == NO_BASE then 0x100 else IntrId(ip) }

  /** Such sorts exist: sorting stably by interrupt id is one. */
  lemma IntrIdSortExists()
    ensures IsIntrIdSort((ips: seq<Ip>) => StableSort(ips, IntrKey))
  {
    hide StableSort, IntrId;
    forall ips: seq<Ip>
      ensures SortedByIntrId(StableSort(ips, IntrKey)) && multiset(StableSort(ips, IntrKey)) == multiset(ips)
    {
      StableSortSorts(ips, IntrKey);
      var r := StableSort(ips, IntrKey);
      forall i, j | 0 <= i < j < |r| ensures !CompareIntrId(r[j], r[i]) {
        assert IntrKey(r[i]) <= IntrKey(r[j]);
        IntrIdBound(r[j]);
      }
    }
  }

  lemma IntrIdBound(ip: Ip)
    ensures IntrId(ip) < 0x100
  {
    AndBound(ip.properties, 0xFE);
  }

  /** What kernel_max_ctx returns when it does not throw. */
  type Context = x: int | 0 <= x < 32

  /** Handshake control in bits 2-0, maximum context in bits 7-3. */
  function Encoded(ip: Ip, ctx: Context): nat { Or(Or(BaseAddr(ip), Control(ip)), ctx * 8) }

  function Addresses(ips: seq<Ip>, maxCtx: Ip -> Context, encode: bool): seq<nat> {
    if encode then Map(ips, (ip: Ip) => Encoded(ip, maxCtx(ip))) else Map(ips, BaseAddr)
  }

  predicate Aligned(ip: Ip) { ip.base == NO_BASE || ip.base % 0x100 == 0 }

  function Mask(addr: nat): nat { addr / 0x100 * 0x100 }

  lemma ControlBound(ip: Ip)
    ensures Control(ip) < 0x100
  {
    AndBound(ip.properties, 0xFF00);
  }

  lemma EncodedSum(ip: Ip, ctx: Context)
    requires Aligned(ip)
    ensures Encoded(ip, ctx) == BaseAddr(ip) + Or(ctx * 8, Control(ip)) && Or(ctx * 8, Control(ip)) < 0x100
  {
    hide Or, Control;
    var base, ctl := BaseAddr(ip), Control(ip);
    EightBits();
    ControlBound(ip);
    assert base == base / 0x100 * 0x100;
    OrShuffle(base, ctl, ctx * 8);
    OrBound(ctx * 8, ctl, 8);
    OrDisjoint(base / 0x100, Or(ctx * 8, ctl), 8);
  }

  lemma LowByte(base: nat, x: nat)
    requires base % 0x100 == 0 && x < 0x100
    ensures (base + x) % 8 == x % 8 && (base + x) / 8 % 32 == x / 8
  {
    LowBits(base / 0x100, x);
  }

  lemma LowBits(q: nat, x: nat)
    ensures (0x100 * q + x) / 8 == 32 * q + x / 8 && (0x100 * q + x) % 8 == x % 8
  {
  }

  /** Encoding changes nothing above the low byte, whatever the address. */
  lemma EncodedKeepsAddress(ip: Ip, ctx: Context)
    ensures Mask(Encoded(ip, ctx)) == Mask(BaseAddr(ip))
    ensures Mask(Encoded(ip, ctx)) == BaseAddr(ip) <==> Aligned(ip)
  {
    hide Or, Control;
    ControlBound(ip);
    OrByte(BaseAddr(ip), Control(ip));
    OrByte(Or(BaseAddr(ip), Control(ip)), ctx * 8);
    OrZero(BaseAddr(ip) / 0x100);
  }

  /**
   Decoding an encoded address: the address comes back exactly when it is a multiple of 256; then
   the control value comes back exactly when it has three bits, and the context exactly when the
   control bits above those three are among its own.
   */
  lemma EncodedDecodes(ip: Ip, ctx: Context)
    ensures Mask(Encoded(ip, ctx)) == BaseAddr(ip) <==> Aligned(ip)
    ensures Aligned(ip) ==> (Encoded(ip, ctx) % 8 == Control(ip) <==> Control(ip) < 8)
    ensures Aligned(ip) ==> (Encoded(ip, ctx) / 8 % 32 == ctx <==> Or(ctx, Control(ip) / 8) == ctx)
  {
    hide Or, Control, Encoded;
    EncodedKeepsAddress(ip, ctx);
    if Aligned(ip) {
      EncodedSum(ip, ctx);
      LowByte(BaseAddr(ip), Or(ctx * 8, Control(ip)));
      OrEighth(ctx * 8, Control(ip));
      if Control(ip) < 8 {
        assert Pow2(3) == 8;
        OrDisjoint(ctx, Control(ip), 3);
      }
    }
  }

  /** A control value of four bits: control 8 with context 0 reads back as control 0 with context 1. */
  lemma WideControlExample()
    ensures var ip := Ip(Kernel, 0x0800, 0, []);
      Control(ip) == 8 && Encoded(ip, 0) % 8 == 0 && Encoded(ip, 0) / 8 % 32 == 1
  {
    hide And, Control;
    MaskedFields(Ip(Kernel, 0x0800, 0, []));
    assert Or(0, 8) == 8 && Or(8, 0) == 8;
  }

  predicate LegacyIntr(layout: seq<Ip>) {
    forall ip | ip in layout && IsValidCu(ip) :: IntrId(ip) == 0
  }

  lemma LegacyMeans(layout: seq<Ip>)
    ensures LegacyIntr(layout) <==>
            forall ip | ip in layout && (ip.kind.Kernel? || ip.kind.PsKernel?) :: ip.properties % 0x100 / 2 == 0
  {
    hide IntrId;
    forall ip ensures IntrId(ip) == ip.properties % 0x100 / 2 * 2 {
      MaskedFields(ip);
    }
  }

  method IsLegacyCuIntr(layout: seq<Ip>) returns (r: bool)
    ensures r == LegacyIntr(layout)
    ensures r <==> forall ip | ip in layout && (ip.kind.Kernel? || ip.kind.PsKernel?) :: ip.properties % 0x100 / 2 == 0
  {
    hide IntrId;
    LegacyMeans(layout);
    var cuCnt, intrCnt := 0, 0;
    for i := 0 to |layout|
      invariant intrCnt <= cuCnt
      invariant cuCnt == intrCnt <==> forall k | 0 <= k < i && IsValidCu(layout[k]) :: IntrId(layout[k]) == 0
    {
      if IsValidCu(layout[i]) {
        cuCnt := cuCnt + 1;
        if IntrId(layout[i]) == 0 {
          intrCnt := intrCnt + 1;
        }
      }
    }
    r := cuCnt == intrCnt;
  }

  function Id(x: nat): nat { x }

  /** The list get_cus returns. */
  function Cus(layout: seq<Ip>, sort: seq<Ip> -> seq<Ip>, maxCtx: Ip -> Context, encode: bool): seq<nat> {
    if LegacyIntr(layout) then StableSort(Addresses(Valids(layout), maxCtx, encode), Id)
    else Addresses(sort(Valids(layout)), maxCtx, encode)
  }

  lemma ValidsStep(layout: seq<Ip>, k: nat)
    requires k < |layout|
    ensures Valids(layout[k..]) == (if IsValidCu(layout[k]) then [layout[k]] else []) + Valids(layout[k + 1..])
  {
    assert layout[k..][1..] == layout[k + 1..];
  }

  method CollectValid(layout: seq<Ip>) returns (ips: seq<Ip>)
    ensures ips == Valids(layout)
  {
    ips := [];
    for count := 0 to |layout|
      invariant ips + Valids(layout[count..]) == Valids(layout)
    {
      hide Valids;
      ValidsStep(layout, count);
      if IsValidCu(layout[count]) {
        Append(ips, layout[count], Valids(layout[count + 1..]));
        ips := ips + [layout[count]];
      }
    }
    assert ips == Valids(layout);
  }

  method CollectAddresses(ips: seq<Ip>, maxCtx: Ip -> Context, encode: bool) returns (cus: seq<nat>)
    ensures cus == Addresses(ips, maxCtx, encode)
  {
    hide Map, Encoded, BaseAddr;
    cus := [];
    for k := 0 to |ips|
      invariant |cus| == k
      invariant forall j | 0 <= j < k :: cus[j] == if encode then Encoded(ips[j], maxCtx(ips[j])) else BaseAddr(ips[j])
    {
      var addr := BaseAddr(ips[k]);
      if encode {
        addr := Encoded(ips[k], maxCtx(ips[k]));
      }
      cus := cus + [addr];
    }
  }

  method GetCus(layout: seq<Ip>, sort: seq<Ip> -> seq<Ip>, maxCtx: Ip -> Context, encode: bool) returns (cus: seq<nat>)
    ensures cus == Cus(layout, sort, maxCtx, encode)
  {
    hide Valids, StableSort, Addresses, LegacyIntr;
    var ips := CollectValid(layout);
    var legacy := IsLegacyCuIntr(layout);
    if !legacy {
      ips := sort(ips);
    }
    cus := CollectAddresses(ips, maxCtx, encode);
    if legacy {
      cus := StableSort(cus, Id);
    }
  }

  lemma AddressesAgree(ips: seq<Ip>, maxCtx: Ip -> Context)
    ensures Map(Addresses(ips, maxCtx, true), Mask) == Map(Addresses(ips, maxCtx, false), Mask)
  {
    hide Encoded, BaseAddr, Mask, Map;
    forall k | 0 <= k < |ips| ensures Mask(Encoded(ips[k], maxCtx(ips[k]))) == Mask(BaseAddr(ips[k])) {
      EncodedKeepsAddress(ips[k], maxCtx(ips[k]));
    }
  }

  lemma MaskAscends(s: seq<nat>)
    requires Ascending(s)
    ensures Ascending(Map(s, Mask))
  {
    hide Map;
  }

  /** Ascending lists that agree up to order above the low byte agree index by index there. */
  lemma SortedAgree(a: seq<nat>, b: seq<nat>)
    requires Map(a, Mask) == Map(b, Mask)
    ensures Map(StableSort(a, Id), Mask) == Map(StableSort(b, Id), Mask)
  {
    hide StableSort, Map;
    StableSortSorts(a, Id);
    StableSortSorts(b, Id);
    MapSort(a, Id, Mask);
    MapSort(b, Id, Mask);
    MaskAscends(StableSort(a, Id));
    MaskAscends(StableSort(b, Id));
    AscendingUnique(Map(StableSort(a, Id), Mask), Map(StableSort(b, Id), Mask));
  }

  /**
   CU index agreement: under either ordering the encoded list and the plain list agree at every
   index above the low byte; with that byte cleared the encoded list is the plain list exactly when
   all CU addresses are multiples of 256.
   */
  lemma EncodedListAgrees(layout: seq<Ip>, sort: seq<Ip> -> seq<Ip>, maxCtx: Ip -> Context)
    requires IsIntrIdSort(sort)
    ensures var enc, plain := Cus(layout, sort, maxCtx, true), Cus(layout, sort, maxCtx, false);
      && Map(enc, Mask) == Map(plain, Mask)
      && (Map(enc, Mask) == plain <==> forall ip | ip in layout && IsValidCu(ip) :: Aligned(ip))
  {
    hide StableSort, SortedByIntrId, Valids, Addresses, Map, LegacyIntr, BaseAddr, IsValidCu;
    var ips := Valids(layout);
    if LegacyIntr(layout) {
      AddressesAgree(ips, maxCtx);
      SortedAgree(Addresses(ips, maxCtx, true), Addresses(ips, maxCtx, false));
    } else {
      AddressesAgree(sort(ips), maxCtx);
    }
    AlignedList(layout, sort, maxCtx);
  }

  lemma AlignedList(layout: seq<Ip>, sort: seq<Ip> -> seq<Ip>, maxCtx: Ip -> Context)
    requires IsIntrIdSort(sort)
    ensures var plain := Cus(layout, sort, maxCtx, false);
      Map(plain, Mask) == plain <==> forall ip | ip in layout && IsValidCu(ip) :: Aligned(ip)
  {
    hide Cus, Map, IsValidCu;
    var plain := Cus(layout, sort, maxCtx, false);
    CusMembers(layout, sort, maxCtx);
    if Map(plain, Mask) == plain {
      forall ip | ip in layout && IsValidCu(ip) ensures Aligned(ip) {
        assert BaseAddr(ip) in plain;
        var k :| 0 <= k < |plain| && plain[k] == BaseAddr(ip);
        assert Mask(plain[k]) == plain[k];
      }
    }
    if forall ip | ip in layout && IsValidCu(ip) :: Aligned(ip) {
      forall k | 0 <= k < |plain| ensures Mask(plain[k]) == plain[k] {
        assert plain[k] in plain;
        var ip :| ip in layout && IsValidCu(ip) && BaseAddr(ip) == plain[k];
      }
    }
  }

  /** Sorted by interrupt id, the free-running CUs come last. */
  lemma FreeRunningLast(ips: seq<Ip>, i: nat, j: nat)
    requires SortedByIntrId(ips) && i <= j < |ips| && ips[i].base == NO_BASE
    ensures ips[j].base == NO_BASE
  {
    hide IntrId;
    assert i < j ==> !CompareIntrId(ips[j], ips[i]);
  }

  // ----- get_cu_indices -----

  datatype CuIdx = CuIdx(domain: nat, domainIndex: nat)

  function PsBefore(layout: seq<Ip>, k: nat): nat
    requires k <= |layout|
  {
    if k == 0 then 0 else PsBefore(layout, k - 1) + if layout[k - 1].kind.PsKernel? then 1 else 0
  }

  /** The PS kernels before entry k. */
  function PsEntries(layout: seq<Ip>, k: nat): set<nat>
    requires k <= |layout|
  {
    set j: nat | j < k && layout[j].kind.PsKernel?
  }

  lemma {:induction false} PsBeforeCounts(layout: seq<Ip>, k: nat)
    requires k <= |layout|
    ensures PsBefore(layout, k) == |PsEntries(layout, k)|
  {
    if k > 0 {
      PsBeforeCounts(layout, k - 1);
      var before := PsEntries(layout, k - 1);
      assert PsEntries(layout, k) == if layout[k - 1].kind.PsKernel? then before + {k - 1} else before;
    } else {
      assert PsEntries(layout, k) == {};
    }
  }

  /** An IP that is no CU has no index. */
  lemma OthersNotIndexed(layout: seq<Ip>, cus: seq<nat>, k: nat)
    requires k < |layout| && layout[k].kind.OtherIp?
    ensures IndexAt(layout, cus, k) == None
  {
  }

  /** A PS kernel's index is the number of PS kernels before it, in domain 1, whatever the list. */
  lemma PsIndexCounts(layout: seq<Ip>, cus: seq<nat>, k: nat)
    requires k < |layout| && layout[k].kind.PsKernel?
    ensures IndexAt(layout, cus, k) == Some(CuIdx(1, |PsEntries(layout, k)| % U16))
  {
    PsBeforeCounts(layout, k);
  }

  /** std::find: the first position holding an address, |cus| when there is none. */
  function Find(cus: seq<nat>, addr: nat): (i: nat)
    ensures i <= |cus|
    ensures i < |cus| ==> cus[i] == addr
    ensures forall k | 0 <= k < i :: cus[k] != addr
    ensures i == |cus| <==> addr !in cus
  {
    if cus == [] then 0
    else
      assert cus == [cus[0]] + cus[1..];
      if cus[0] == addr then 0 else 1 + Find(cus[1..], addr)
  }

  /** The index given to entry k of the layout; domains are 0 for PL and 1 for PS kernels, 16 bits each. */
  function IndexAt(layout: seq<Ip>, cus: seq<nat>, k: nat): Option<CuIdx>
    requires k < |layout|
  {
    if !IsValidCu(layout[k]) then None
    else if layout[k].kind.PsKernel? then Some(CuIdx(1, PsBefore(layout, k) % U16))
    else if layout[k].base in cus then Some(CuIdx(0, Find(cus, layout[k].base) % U16))
    else None
  }

  /** Entry k is the first entry of its name that gets an index. */
  predicate FirstOfName(layout: seq<Ip>, cus: seq<nat>, k: nat) {
    && k < |layout|
    && IndexAt(layout, cus, k).Some?
    && forall j | 0 <= j < k :: layout[j].name == layout[k].name ==> IndexAt(layout, cus, j).None?
  }

  /** cu2idx holds exactly the first indexed entry of every name among the first n entries. */
  ghost predicate IndexesPrefix(layout: seq<Ip>, cus: seq<nat>, n: nat, cu2idx: map<string, CuIdx>)
    requires n <= |layout|
  {
    && (forall name | name in cu2idx :: exists k: nat :: k < n && layout[k].name == name && FirstOfName(layout, cus, k))
    && (forall k: nat | k < n && IndexAt(layout, cus, k).Some? :: layout[k].name in cu2idx)
    && (forall k: nat | k < n && FirstOfName(layout, cus, k) ::
          layout[k].name in cu2idx && Some(cu2idx[layout[k].name]) == IndexAt(layout, cus, k))
  }

  /** Recording entry n by emplace: an index for a new name, nothing for a name already there. */
  lemma Emplace(layout: seq<Ip>, cus: seq<nat>, n: nat, cu2idx: map<string, CuIdx>)
    requires n < |layout| && IndexesPrefix(layout, cus, n, cu2idx)
    ensures var idx, name := IndexAt(layout, cus, n), layout[n].name;
      IndexesPrefix(layout, cus, n + 1, if idx.Some? && name !in cu2idx then cu2idx[name := idx.value] else cu2idx)
  {
    hide IndexAt;
    var idx, name := IndexAt(layout, cus, n), layout[n].name;
    if idx.Some? && name !in cu2idx {
      assert FirstOfName(layout, cus, n);
    }
    if FirstOfName(layout, cus, n) {
      assert name !in cu2idx by {
        forall k: nat | k < n && layout[k].name == name ensures !FirstOfName(layout, cus, k) {
        }
      }
    }
    forall k: nat | k < n && FirstOfName(layout, cus, k) && layout[k].name == name ensures name in cu2idx {
    }
  }

  method GetCuIndices(layout: seq<Ip>, sort: seq<Ip> -> seq<Ip>, maxCtx: Ip -> Context)
    returns (cu2idx: map<string, CuIdx>)
    ensures IndexesPrefix(layout, Cus(layout, sort, maxCtx, false), |layout|, cu2idx)
    ensures var cus := Cus(layout, sort, maxCtx, false);
      forall k | 0 <= k < |layout| && IndexAt(layout, cus, k).Some?
                 && (forall j | 0 <= j < k :: layout[j].name == layout[k].name ==> IndexAt(layout, cus, j).None?) ::
        layout[k].name in cu2idx && Some(cu2idx[layout[k].name]) == IndexAt(layout, cus, k)
    ensures var cus := Cus(layout, sort, maxCtx, false);
      forall name | name in cu2idx ::
        exists k :: 0 <= k < |layout| && layout[k].name == name && Some(cu2idx[name]) == IndexAt(layout, cus, k)
  {
    hide Cus, IndexesPrefix, IndexAt;
    var cus := GetCus(layout, sort, maxCtx, false);
    var psKernelIdx := 0;
    cu2idx := map[];
    NothingIndexed(layout, cus);
    for count := 0 to |layout|
      invariant psKernelIdx == PsBefore(layout, count) % U16
      invariant IndexesPrefix(layout, cus, count, cu2idx)
    {
      IndexIs(layout, cus, count, psKernelIdx);
      var ip := layout[count];
      var cuidx := None;
      if IsValidCu(ip) {
        if ip.kind.PsKernel? {
          cuidx := Some(CuIdx(1, psKernelIdx));
          psKernelIdx := (psKernelIdx + 1) % U16;
        } else if Find(cus, ip.base) < |cus| {
          cuidx := Some(CuIdx(0, Find(cus, ip.base) % U16));
        }
      }
      Emplace(layout, cus, count, cu2idx);
      if cuidx.Some? && ip.name !in cu2idx {
        cu2idx := cu2idx[ip.name := cuidx.value];
      }
    }
    AllIndexed(layout, cus, cu2idx);
  }

  lemma IndexIs(layout: seq<Ip>, cus: seq<nat>, k: nat, ps: nat)
    requires k < |layout| && ps == PsBefore(layout, k) % U16
    ensures IndexAt(layout, cus, k) ==
      if !IsValidCu(layout[k]) then None
      else if layout[k].kind.PsKernel? then Some(CuIdx(1, ps))
      else if Find(cus, layout[k].base) < |cus| then Some(CuIdx(0, Find(cus, layout[k].base) % U16))
      else None
    ensures PsBefore(layout, k + 1) % U16 == if layout[k].kind.PsKernel? then (ps + 1) % U16 else ps
  {
  }

  lemma AllIndexed(layout: seq<Ip>, cus: seq<nat>, cu2idx: map<string, CuIdx>)
    requires IndexesPrefix(layout, cus, |layout|, cu2idx)
    ensures
      forall k | 0 <= k < |layout| && IndexAt(layout, cus, k).Some?
                 && (forall j | 0 <= j < k :: layout[j].name == layout[k].name ==> IndexAt(layout, cus, j).None?) ::
        layout[k].name in cu2idx && Some(cu2idx[layout[k].name]) == IndexAt(layout, cus, k)
    ensures forall name | name in cu2idx ::
              exists k :: 0 <= k < |layout| && layout[k].name == name && Some(cu2idx[name]) == IndexAt(layout, cus, k)
  {
    hide IndexAt;
    forall k | 0 <= k < |layout| && IndexAt(layout, cus, k).Some?
               && (forall j | 0 <= j < k :: layout[j].name == layout[k].name ==> IndexAt(layout, cus, j).None?)
      ensures layout[k].name in cu2idx && Some(cu2idx[layout[k].name]) == IndexAt(layout, cus, k)
    {
      assert FirstOfName(layout, cus, k);
    }
    forall name | name in cu2idx
      ensures exists k :: 0 <= k < |layout| && layout[k].name == name && Some(cu2idx[name]) == IndexAt(layout, cus, k)
    {
      var k: nat :| k < |layout| && layout[k].name == name && FirstOfName(layout, cus, k);
    }
  }

  lemma NothingIndexed(layout: seq<Ip>, cus: seq<nat>)
    ensures IndexesPrefix(layout, cus, 0, map[])
  {
  }

  ghost predicate DistinctCus(layout: seq<Ip>) {
    forall i, j | 0 <= i < j < |layout| && IsValidCu(layout[i]) && IsValidCu(layout[j]) ::
      && layout[i].name != layout[j].name
      && (layout[i].kind.Kernel? && layout[j].kind.Kernel? ==> layout[i].base != layout[j].base)
  }

  /** The plain list holds exactly the valid CUs' addresses, in some order. */
  lemma CusMembers(layout: seq<Ip>, sort: seq<Ip> -> seq<Ip>, maxCtx: Ip -> Context)
    requires IsIntrIdSort(sort)
    ensures var cus := Cus(layout, sort, maxCtx, false);
      && |cus| <= |layout|
      && forall addr :: addr in cus <==> exists ip :: ip in layout && IsValidCu(ip) && BaseAddr(ip) == addr
  {
    hide StableSort, SortedByIntrId, Valids, LegacyIntr, BaseAddr, IsValidCu, Map;
    var ips := Valids(layout);
    ValidsMembers(layout);
    ValidsLength(layout);
    var ordered := if LegacyIntr(layout) then ips else sort(ips);
    assert multiset(ordered) == multiset(ips);
    assert |ordered| == |multiset(ordered)| == |ips|;
    assert forall ip :: ip in ordered <==> ip in multiset(ordered);
    var addrs := Addresses(ordered, maxCtx, false);
    StableSortSorts(addrs, Id);
    var cus := Cus(layout, sort, maxCtx, false);
    assert multiset(cus) == multiset(addrs);
    assert |cus| == |multiset(cus)| == |addrs|;
    forall addr ensures addr in cus <==> exists ip :: ip in layout && IsValidCu(ip) && BaseAddr(ip) == addr {
      assert addr in cus <==> addr in multiset(addrs);
      MapMembers(ordered, BaseAddr, addr);
    }
  }

  // ----- Where CUs stand in the plain list -----

  /** One for a CU, PL or PS. */
  function IsCu(ip: Ip): nat { if ip.kind.Kernel? || ip.kind.PsKernel? then 1 else 0 }

  /** One for a CU with an address. */
  function HasAddress(ip: Ip): nat {
    if (ip.kind.Kernel? || ip.kind.PsKernel?) && ip.base != U64 - 1 then 1 else 0
  }

  lemma {:induction false} ValidsSum(layout: seq<Ip>)
    ensures |Valids(layout)| == Sum(layout, IsCu)
    ensures Sum(Valids(layout), HasAddress) == Sum(layout, HasAddress)
  {
    if layout != [] {
      var front := if IsValidCu(layout[0]) then [layout[0]] else [];
      ValidsSum(layout[1..]);
      SumConcat(front, Valids(layout[1..]), HasAddress);
      SumSnoc([], layout[0], HasAddress);
      assert [] + [layout[0]] == [layout[0]];
    }
  }

  /** An address no CU without address is given. */
  function Low(addr: nat): nat { if addr < U64 - 0x100 then 1 else 0 }

  lemma {:induction false} LowHasAddress(ips: seq<Ip>)
    requires forall ip | ip in ips :: IsValidCu(ip)
    ensures Sum(Map(ips, BaseAddr), Low) <= Sum(ips, HasAddress)
  {
    if ips != [] {
      assert ips[0] in ips && forall ip | ip in ips[1..] :: ip in ips;
      LowHasAddress(ips[1..]);
      var m := Map(ips, BaseAddr);
      assert m == [BaseAddr(ips[0])] + Map(ips[1..], BaseAddr);
      assert m[1..] == Map(ips[1..], BaseAddr);
    }
  }

  lemma LegacyPlace(ips: seq<Ip>, addr: nat)
    requires forall ip | ip in ips :: IsValidCu(ip)
    requires addr < U64 - 0x100
    requires var cus := StableSort(Map(ips, BaseAddr), Id); Find(cus, addr) < |cus|
    ensures Find(StableSort(Map(ips, BaseAddr), Id), addr) < Sum(ips, HasAddress)
  {
    hide StableSort, Map, Find, Sum, HasAddress, BaseAddr;
    var addrs := Map(ips, BaseAddr);
    var cus := StableSort(addrs, Id);
    var i := Find(cus, addr);
    StableSortSorts(addrs, Id);
    forall k | 0 <= k <= i ensures Low(cus[k]) >= 1 {
      assert k < i ==> Id(cus[k]) <= Id(cus[i]);
    }
    PrefixSum(cus, i, Low);
    SumPermutes(cus, addrs, Low);
    LowHasAddress(ips);
  }

  lemma IntrIdPlace(ips: seq<Ip>, k: nat)
    requires SortedByIntrId(ips) && k < |ips| && (forall ip | ip in ips :: IsValidCu(ip)) && ips[k].base != U64 - 1
    ensures Find(Map(ips, BaseAddr), ips[k].base) < Sum(ips, HasAddress)
  {
    hide Map, Find, Sum, SortedByIntrId;
    forall j | 0 <= j <= k ensures HasAddress(ips[j]) >= 1 {
      assert ips[j] in ips;
      if ips[j].base == U64 - 1 {
        FreeRunningLast(ips, j, k);
      }
    }
    PrefixSum(ips, k, HasAddress);
    assert Map(ips, BaseAddr)[k] == ips[k].base;
  }

  /**
   CUs without an address come last, in either ordering: a PL CU's first place in the plain list is
   below the number of CUs with an address.
   */
  lemma AddressedFirst(layout: seq<Ip>, sort: seq<Ip> -> seq<Ip>, maxCtx: Ip -> Context, k: nat)
    requires IsIntrIdSort(sort)
    requires k < |layout| && layout[k].kind.Kernel? && layout[k].base < U64 - 0x100
    ensures Find(Cus(layout, sort, maxCtx, false), layout[k].base) < Sum(layout, HasAddress)
  {
    hide StableSort, Map, Find, Sum, Valids, LegacyIntr, SortedByIntrId, HasAddress;
    var ips := Valids(layout);
    assert layout[k] in layout;
    ValidsMembers(layout);
    ValidsSum(layout);
    if LegacyIntr(layout) {
      Listed(layout, sort, maxCtx, k);
      LegacyPlace(ips, layout[k].base);
    } else {
      Permuted(ips, sort, layout[k]);
      SumPermutes(sort(ips), ips, HasAddress);
      var j :| 0 <= j < |sort(ips)| && sort(ips)[j] == layout[k];
      IntrIdPlace(sort(ips), j);
    }
  }

  lemma Listed(layout: seq<Ip>, sort: seq<Ip> -> seq<Ip>, maxCtx: Ip -> Context, k: nat)
    requires IsIntrIdSort(sort) && k < |layout| && layout[k].kind.Kernel? && layout[k].base != NO_BASE
    ensures layout[k].base in Cus(layout, sort, maxCtx, false)
  {
    CusMembers(layout, sort, maxCtx);
    hide Cus;
    assert layout[k] in layout && BaseAddr(layout[k]) == layout[k].base;
  }

  lemma Permuted(ips: seq<Ip>, sort: seq<Ip> -> seq<Ip>, ip: Ip)
    requires IsIntrIdSort(sort) && ip in ips && forall x | x in ips :: IsValidCu(x)
    ensures multiset(sort(ips)) == multiset(ips) && SortedByIntrId(sort(ips))
    ensures ip in sort(ips) && forall x | x in sort(ips) :: IsValidCu(x)
  {
    hide SortedByIntrId, IsValidCu;
    assert ip in multiset(sort(ips));
    forall x | x in sort(ips) ensures IsValidCu(x) {
      assert x in multiset(sort(ips));
    }
  }

  /** The layout's CUs, those with an address by interrupt id and the others behind, give the list. */
  ghost predicate InIntrIdOrder(ips: seq<Ip>, layout: seq<Ip>, cus: seq<nat>) {
    && (forall ip :: multiset(ips)[ip] == if ip.kind.OtherIp? then 0 else multiset(layout)[ip])
    && (forall i, j | 0 <= i < j < |ips| :: ips[i].base == U64 - 1 ==> ips[j].base == U64 - 1)
    && (forall i, j | 0 <= i < j < |ips| && ips[j].base != U64 - 1 ::
          ips[i].properties % 0x100 / 2 <= ips[j].properties % 0x100 / 2)
    && |cus| == |ips|
    && forall k | 0 <= k < |ips| :: cus[k] == if ips[k].base == U64 - 1 then U64 - 0x100 else ips[k].base
  }

  lemma {:induction false} ValidsMultiset(layout: seq<Ip>, ip: Ip)
    ensures multiset(Valids(layout))[ip] == if ip.kind.OtherIp? then 0 else multiset(layout)[ip]
  {
    if layout != [] {
      ValidsMultiset(layout[1..], ip);
      assert layout == [layout[0]] + layout[1..];
    }
  }

  lemma SortIsInOrder(layout: seq<Ip>, sort: seq<Ip> -> seq<Ip>)
    requires IsIntrIdSort(sort)
    ensures InIntrIdOrder(sort(Valids(layout)), layout, Map(sort(Valids(layout)), BaseAddr))
  {
    hide Valids, Map, IntrId;
    var ips := sort(Valids(layout));
    forall ip: Ip ensures multiset(ips)[ip] == if ip.kind.OtherIp? then 0 else multiset(layout)[ip] {
      ValidsMultiset(layout, ip);
    }
    forall i, j | 0 <= i < j < |ips|
      ensures ips[i].base == U64 - 1 ==> ips[j].base == U64 - 1
      ensures ips[j].base != U64 - 1 ==> ips[i].properties % 0x100 / 2 <= ips[j].properties % 0x100 / 2
    {
      if ips[i].base == U64 - 1 {
        FreeRunningLast(ips, i, j);
      }
      assert !CompareIntrId(ips[j], ips[i]);
      CompareIsStrictWeakOrder(ips[j], ips[i], ips[i]);
    }
  }

  /**
   The plain list, said without its construction: one entry for each CU; the addresses of the CUs,
   where one without an address counts as the last 256-byte block of the address space; ascending
   when no CU has an interrupt id, and in interrupt-id order otherwise.
   */
  lemma PlainList(layout: seq<Ip>, sort: seq<Ip> -> seq<Ip>, maxCtx: Ip -> Context)
    requires IsIntrIdSort(sort)
    ensures var cus := Cus(layout, sort, maxCtx, false);
      && |cus| == Sum(layout, IsCu)
      && (forall addr :: addr in cus <==> exists ip :: ip in layout && (ip.kind.Kernel? || ip.kind.PsKernel?)
                                                       && addr == if ip.base == U64 - 1 then U64 - 0x100 else ip.base)
      && ((forall ip | ip in layout && (ip.kind.Kernel? || ip.kind.PsKernel?) :: ip.properties % 0x100 / 2 == 0) ==>
            Ascending(cus))
      && ((exists ip | ip in layout :: (ip.kind.Kernel? || ip.kind.PsKernel?) && ip.properties % 0x100 / 2 != 0) ==>
            exists ips :: InIntrIdOrder(ips, layout, cus))
  {
    hide StableSort, Map, Sum, Valids, SortedByIntrId, InIntrIdOrder;
    ValidsSum(layout);
    CusMembers(layout, sort, maxCtx);
    var ips := Valids(layout);
    StableSortSorts(Map(ips, BaseAddr), Id);
    LegacyMeans(layout);
    hide LegacyIntr;
    if !LegacyIntr(layout) {
      assert |sort(ips)| == |multiset(sort(ips))| == |ips|;
      SortIsInOrder(layout, sort);
    }
  }

  lemma MapMembers<T>(s: seq<T>, f: T -> nat, y: nat)
    ensures y in Map(s, f) <==> exists x :: x in s && f(x) == y
  {
    hide Map;
    var r := Map(s, f);
    if y in r {
      var k :| 0 <= k < |r| && r[k] == y;
      assert s[k] in s;
    }
    if x :| x in s && f(x) == y {
      var k :| 0 <= k < |s| && s[k] == x;
      assert r[k] == y;
    }
  }

  lemma {:induction false} ValidsLength(layout: seq<Ip>)
    ensures |Valids(layout)| <= |layout|
  {
    if layout != [] {
      ValidsLength(layout[1..]);
    }
  }

  /** An entry's place before it is cut to 16 bits: in the plain list, or among the PS kernels. */
  function Place(layout: seq<Ip>, cus: seq<nat>, k: nat): nat
    requires k < |layout|
  {
    if layout[k].kind.PsKernel? then PsBefore(layout, k) else Find(cus, layout[k].base)
  }

  /**
   A PL CU gets an index exactly when it has an address.  The index is the first place of that
   address modulo 2^16, and the list holds the address there exactly when the place fits 16 bits.
   */
  lemma PlIndexHoldsBase(layout: seq<Ip>, sort: seq<Ip> -> seq<Ip>, maxCtx: Ip -> Context, k: nat)
    requires IsIntrIdSort(sort)
    requires k < |layout| && layout[k].kind.Kernel?
    ensures var cus, idx := Cus(layout, sort, maxCtx, false), IndexAt(layout, Cus(layout, sort, maxCtx, false), k);
      && (idx.Some? <==> layout[k].base != NO_BASE)
      && (idx.Some? ==>
            && idx.value.domain == 0 && idx.value.domainIndex < |cus| <= |layout|
            && (cus[idx.value.domainIndex] == layout[k].base <==> Place(layout, cus, k) < U16))
  {
    hide Cus;
    CusMembers(layout, sort, maxCtx);
    var cus := Cus(layout, sort, maxCtx, false);
    if layout[k].base != NO_BASE {
      assert BaseAddr(layout[k]) == layout[k].base && layout[k] in layout;
      var p := Place(layout, cus, k);
      assert p % U16 < p || p < U16;
    }
  }

  /**
   With distinct names and PL addresses every indexed CU is found by name, at a place of its own in
   its domain; two indices coincide exactly when two places of a domain agree modulo 2^16, which
   takes more than 2^16 entries.
   */
  lemma IndicesDistinct(layout: seq<Ip>, sort: seq<Ip> -> seq<Ip>, maxCtx: Ip -> Context, i: nat, j: nat)
    requires IsIntrIdSort(sort) && DistinctCus(layout)
    requires i < j < |layout|
    ensures var cus := Cus(layout, sort, maxCtx, false);
      var a, b, p, q := IndexAt(layout, cus, i), IndexAt(layout, cus, j), Place(layout, cus, i), Place(layout, cus, j);
      && (a.Some? ==> FirstOfName(layout, cus, i) && p < |layout|)
      && (b.Some? ==> FirstOfName(layout, cus, j) && q < |layout|)
      && (a.Some? && b.Some? ==>
            && (layout[i].kind == layout[j].kind ==> p != q)
            && (a == b <==> layout[i].kind == layout[j].kind && p % U16 == q % U16)
            && (a == b ==> |layout| > U16))
  {
    hide Cus;
    var cus := Cus(layout, sort, maxCtx, false);
    CusMembers(layout, sort, maxCtx);
    PsBeforeGrows(layout, i, j);
    PsBeforeBound(layout, i);
  }

  lemma {:induction false} PsBeforeGrows(layout: seq<Ip>, i: nat, j: nat)
    requires i < j <= |layout|
    ensures PsBefore(layout, i) <= PsBefore(layout, j) <= j
    ensures layout[i].kind.PsKernel? ==> PsBefore(layout, i) < PsBefore(layout, j)
    decreases j
  {
    if i < j - 1 {
      PsBeforeGrows(layout, i, j - 1);
    } else {
      PsBeforeBound(layout, i);
    }
  }

  lemma {:induction false} PsBeforeBound(layout: seq<Ip>, i: nat)
    requires i <= |layout|
    ensures PsBefore(layout, i) <= i
  {
    if i > 0 {
      PsBeforeBound(layout, i - 1);
    }
  }
}
