/**
 The connectivity section for software emulation (core/common/xclbin_swemu.cpp): one pass sizes the
 section, a second one fills it with a connection for every IP and indexed argument.
 */
module Connectivity {
  import opened Common
  import opened Sorting
  import opened KernelArgs

  datatype KernelMeta = KernelMeta(name: string, args: seq<Arg>)

  datatype Connection = Connection(argIndex: int, ipIndex: nat, memIndex: nat)

  /** A size_t stored in an int32_t. */
  function Cut(x: nat): int {
    var y := x % U32;
    if y < 0x8000_0000 then y else y - U32
  }

  const HEADER_BYTES: nat := 4
  const CONNECTION_BYTES: nat := 12

  /** The part of a CU name before the first colon. */
  function KernelName(cuname: string): string {
    if cuname == [] || cuname[0] == ':' then [] else [cuname[0]] + KernelName(cuname[1..])
  }

  function Indexed(args: seq<Arg>): seq<Arg> {
    if args == [] then []
    else (if args[0].index == NO_INDEX then [] else [args[0]]) + Indexed(args[1..])
  }

  /** The indexed arguments of the first kernel of a name; a name without a kernel has none. */
  function ArgsOf(kernels: seq<KernelMeta>, name: string): seq<Arg> {
    if kernels == [] then []
    else if kernels[0].name == name then Indexed(kernels[0].args)
    else ArgsOf(kernels[1..], name)
  }

  /** The connections of one IP, in argument order. */
  function Row(kernels: seq<KernelMeta>, ips: seq<string>, ip: nat): (r: seq<Connection>)
    requires ip < |ips|
    ensures |r| == |ArgsOf(kernels, KernelName(ips[ip]))|
  {
    var args := ArgsOf(kernels, KernelName(ips[ip]));
    seq(|args|, k requires 0 <= k < |args| => Connection(Cut(args[k].index), ip, 0))
  }

  /** The connections of the first n IPs, in layout order. */
  function Rows(kernels: seq<KernelMeta>, ips: seq<string>, n: nat): seq<Connection>
    requires n <= |ips|
  {
    if n == 0 then [] else Rows(kernels, ips, n - 1) + Row(kernels, ips, n - 1)
  }

  lemma IndexedStep(args: seq<Arg>, i: nat)
    requires i < |args|
    ensures Indexed(args[i..]) == (if args[i].index == NO_INDEX then [] else [args[i]]) + Indexed(args[i + 1..])
  {
    assert args[i..][1..] == args[i + 1..];
  }

  method RemoveUnindexed(args: seq<Arg>) returns (r: seq<Arg>)
    ensures r == Indexed(args)
  {
    r := [];
    for i := 0 to |args|
      invariant r + Indexed(args[i..]) == Indexed(args)
    {
      hide Indexed;
      IndexedStep(args, i);
      if args[i].index != NO_INDEX {
        r := r + [args[i]];
      }
    }
    assert r == Indexed(args);
  }

  method LookupArgs(kernels: seq<KernelMeta>) returns (k2args: map<string, seq<Arg>>)
    ensures forall name: string :: ArgsOf(kernels, name) == At(k2args, name)
  {
    k2args := map[];
    for i := 0 to |kernels|
      invariant forall name: string ::
        ArgsOf(kernels, name) == if name in k2args then k2args[name] else ArgsOf(kernels[i..], name)
    {
      assert kernels[i..][1..] == kernels[i + 1..];
      var args := RemoveUnindexed(kernels[i].args);
      if kernels[i].name !in k2args {
        k2args := k2args[kernels[i].name := args];
      }
    }
  }

  /** operator[] of std::map: a missing key reads as empty. */
  function At(k2args: map<string, seq<Arg>>, name: string): seq<Arg> {
    if name in k2args then k2args[name] else []
  }

  /** The inner loop of the filling pass; the source's assertion is the one on idx. */
  method FillRow(section: array<Connection>, start: nat, args: seq<Arg>, ip: nat) returns (idx: nat)
    requires start + |args| <= section.Length
    modifies section
    ensures idx == start + |args|
    ensures section[..start] == old(section[..start])
    ensures forall k | 0 <= k < |args| :: section[start + k] == Connection(Cut(args[k].index), ip, 0)
  {
    idx := start;
    for k := 0 to |args|
      invariant idx == start + k
      invariant section[..start] == old(section[..start])
      invariant forall j | 0 <= j < k :: section[start + j] == Connection(Cut(args[j].index), ip, 0)
    {
      assert idx < section.Length;
      section[idx] := Connection(Cut(args[k].index), ip, 0);
      idx := idx + 1;
    }
  }

  /** The filling pass. */
  method FillRows(section: array<Connection>, kernels: seq<KernelMeta>, ips: seq<string>, k2args: map<string, seq<Arg>>)
    requires forall name: string :: ArgsOf(kernels, name) == At(k2args, name)
    requires section.Length == |Rows(kernels, ips, |ips|)|
    modifies section
    ensures section[..] == Rows(kernels, ips, |ips|)
  {
    hide KernelName, ArgsOf, At;
    var idx := 0;
    for ip := 0 to |ips|
      invariant idx == |Rows(kernels, ips, ip)| <= section.Length
      invariant section[..idx] == Rows(kernels, ips, ip)
    {
      RowsFit(kernels, ips, ip + 1);
      ghost var start := idx;
      idx := FillRow(section, idx, At(k2args, KernelName(ips[ip])), ip);
      assert section[..idx] == section[..start] + section[start..idx];
      assert section[start..idx] == Row(kernels, ips, ip);
    }
    assert section[..] == section[..idx];
  }

  /**
   The sizing pass and the filling pass agree on every layout: the index never reaches the count
   inside the loop, every entry is written, and the entries are the rows of all IPs in order.
   */
  method GetConnectivity(kernels: seq<KernelMeta>, ips: seq<string>) returns (section: array<Connection>, bytes: nat)
    ensures section[..] == Rows(kernels, ips, |ips|)
    ensures bytes == 4 + 12 * section.Length
    ensures fresh(section)
  {
    hide KernelName, ArgsOf, At;
    var k2args := LookupArgs(kernels);
    bytes := 16 - CONNECTION_BYTES;
    var count := 0;
    for ip := 0 to |ips|
      invariant count == |Rows(kernels, ips, ip)| && bytes == HEADER_BYTES + CONNECTION_BYTES * count
    {
      var connections := |At(k2args, KernelName(ips[ip]))|;
      bytes := bytes + CONNECTION_BYTES * connections;
      count := count + connections;
    }
    section := new Connection[count](_ => Connection(0, 0, 0));
    FillRows(section, kernels, ips, k2args);
  }

  lemma {:induction false} RowsFit(kernels: seq<KernelMeta>, ips: seq<string>, n: nat)
    requires n <= |ips|
    ensures |Rows(kernels, ips, n)| <= |Rows(kernels, ips, |ips|)|
    decreases |ips| - n
  {
    if n < |ips| {
      RowsFit(kernels, ips, n + 1);
    }
  }

  // ----- No duplicates -----

  /** Every argument is stored at its own index. */
  predicate InPlace(args: seq<Arg>) {
    forall j | 0 <= j < |args| :: args[j].index == j
  }

  predicate NoDuplicates(cs: seq<Connection>) {
    forall i, j | 0 <= i < j < |cs| :: cs[i] != cs[j]
  }

  lemma CutUnique(x: nat, y: nat)
    ensures -0x8000_0000 <= Cut(x) < 0x8000_0000 && (x - Cut(x)) % U32 == 0
    ensures Cut(x) == Cut(y) <==> x % U32 == y % U32
    ensures x < y < U32 ==> Cut(x) != Cut(y)
  {
  }

  /** The arguments of every one of the first n IPs are few enough for distinct 32-bit indices. */
  ghost predicate FewEnough(kernels: seq<KernelMeta>, ips: seq<string>, n: nat)
    requires n <= |ips|
  {
    forall ip: nat | ip < n :: |ArgsOf(kernels, KernelName(ips[ip]))| <= U32
  }

  lemma {:induction false} RowsDistinct(kernels: seq<KernelMeta>, ips: seq<string>, n: nat)
    requires n <= |ips| && FewEnough(kernels, ips, n)
    requires forall name :: InPlace(ArgsOf(kernels, name))
    ensures NoDuplicates(Rows(kernels, ips, n))
    ensures forall c | c in Rows(kernels, ips, n) :: c.ipIndex < n
  {
    hide ArgsOf, KernelName, Cut;
    if n > 0 {
      RowsDistinct(kernels, ips, n - 1);
      var front, row := Rows(kernels, ips, n - 1), Row(kernels, ips, n - 1);
      var args := ArgsOf(kernels, KernelName(ips[n - 1]));
      assert InPlace(args);
      forall i, j | 0 <= i < j < |front + row| ensures (front + row)[i] != (front + row)[j] {
        if i < |front| <= j {
          assert front[i] in front;
        } else if |front| <= i {
          CutUnique(args[i - |front|].index, args[j - |front|].index);
        }
      }
    }
  }

  lemma {:induction false} RowsBelow(kernels: seq<KernelMeta>, ips: seq<string>, n: nat)
    requires n <= |ips|
    ensures forall c | c in Rows(kernels, ips, n) :: c.ipIndex < n
  {
    if n > 0 {
      RowsBelow(kernels, ips, n - 1);
    }
  }

  predicate InLayoutOrder(rows: seq<Connection>) {
    forall i, j | 0 <= i < j < |rows| :: rows[i].ipIndex <= rows[j].ipIndex
  }

  /** The section lists the IPs in layout order. */
  lemma {:induction false} RowsInOrder(kernels: seq<KernelMeta>, ips: seq<string>, n: nat)
    requires n <= |ips|
    ensures InLayoutOrder(Rows(kernels, ips, n))
  {
    if n > 0 {
      RowsInOrder(kernels, ips, n - 1);
      RowsBelow(kernels, ips, n - 1);
      var front, last := Rows(kernels, ips, n - 1), Row(kernels, ips, n - 1);
      assert forall c | c in last :: c.ipIndex == n - 1;
      hide Row, InLayoutOrder;
      OrderedConcat(front, last, n - 1);
    }
  }

  lemma OrderedConcat(front: seq<Connection>, last: seq<Connection>, ip: nat)
    requires InLayoutOrder(front)
    requires (forall c | c in front :: c.ipIndex < ip) && forall c | c in last :: c.ipIndex == ip
    ensures InLayoutOrder(front + last)
  {
    var rows := front + last;
    forall i, j | 0 <= i < j < |rows| ensures rows[i].ipIndex <= rows[j].ipIndex {
      if j >= |front| {
        assert rows[j] == last[j - |front|] && last[j - |front|] in last;
        if i < |front| {
          assert rows[i] == front[i] && front[i] in front;
        } else {
          assert rows[i] == last[i - |front|] && last[i - |front|] in last;
        }
      } else {
        assert rows[i] == front[i] && rows[j] == front[j];
      }
    }
  }

  /** One IP's entries stand together from at on, and no other entry names that IP. */
  ghost predicate Block(rows: seq<Connection>, row: seq<Connection>, at: nat, ip: nat) {
    && at + |row| <= |rows|
    && (forall k: nat | k < |row| :: rows[at + k] == row[k])
    && (forall k: nat | k < |rows| && !(at <= k < at + |row|) :: rows[k].ipIndex != ip)
  }

  lemma BlockLast(front: seq<Connection>, last: seq<Connection>, ip: nat)
    requires forall c | c in front :: c.ipIndex != ip
    ensures Block(front + last, last, |front|, ip)
  {
    assert forall k: nat | k < |front| :: front[k] in front;
  }

  lemma BlockBefore(front: seq<Connection>, last: seq<Connection>, row: seq<Connection>, at: nat, ip: nat)
    requires Block(front, row, at, ip) && forall c | c in last :: c.ipIndex != ip
    ensures Block(front + last, row, at, ip)
  {
    forall k: nat | k < |front + last| && !(at <= k < at + |row|) ensures (front + last)[k].ipIndex != ip {
      if k >= |front| {
        assert last[k - |front|] in last;
      }
    }
  }

  lemma {:induction false} RowInRows(kernels: seq<KernelMeta>, ips: seq<string>, n: nat, ip: nat) returns (at: nat)
    requires ip < n <= |ips|
    ensures Block(Rows(kernels, ips, n), Row(kernels, ips, ip), at, ip)
  {
    hide Block;
    var front := Rows(kernels, ips, n - 1);
    var last := Row(kernels, ips, n - 1);
    assert forall c | c in last :: c.ipIndex == n - 1;
    hide Row;
    if ip == n - 1 {
      at := |front|;
      RowsBelow(kernels, ips, n - 1);
      BlockLast(front, last, ip);
    } else {
      at := RowInRows(kernels, ips, n - 1, ip);
      BlockBefore(front, last, Row(kernels, ips, ip), at, ip);
    }
  }

  lemma RowsRepeat(kernels: seq<KernelMeta>, ips: seq<string>, ip: nat)
    requires ip < |ips| && |ArgsOf(kernels, KernelName(ips[ip]))| > U32
    requires InPlace(ArgsOf(kernels, KernelName(ips[ip])))
    ensures !NoDuplicates(Rows(kernels, ips, |ips|))
  {
    hide ArgsOf, KernelName, Cut, Rows;
    var args := ArgsOf(kernels, KernelName(ips[ip]));
    CutUnique(args[0].index, args[U32].index);
    var at := RowInRows(kernels, ips, |ips|, ip);
    var row, rows := Row(kernels, ips, ip), Rows(kernels, ips, |ips|);
    assert rows[at + 0] == row[0] == row[U32] == rows[at + U32];
  }

  lemma {:induction false} IndexedOfConcat(a: seq<Arg>, b: seq<Arg>)
    ensures Indexed(a + b) == Indexed(a) + Indexed(b)
  {
    if a == [] {
      assert a + b == b;
    } else {
      assert (a + b)[1..] == a[1..] + b;
      IndexedOfConcat(a[1..], b);
    }
  }

  lemma {:induction false} IndexedAllOrNone(args: seq<Arg>)
    ensures (forall a | a in args :: a.index != NO_INDEX) ==> Indexed(args) == args
    ensures (forall a | a in args :: a.index == NO_INDEX) ==> Indexed(args) == []
  {
    if args != [] {
      assert args[0] in args && forall a | a in args[1..] :: a in args;
      IndexedAllOrNone(args[1..]);
    }
  }

  lemma StoredIndices(args: seq<Arg>, parsed: seq<Arg>, k: nat)
    requires k <= |args| < U64 && StoredInOrder(args, parsed, k)
    ensures forall j: u64 | j < k :: args[j].index == j
    ensures forall a | a in args[k..] :: a.index == NO_INDEX
  {
    hide Bucket, Merged;
    forall j: u64 | j < k ensures args[j].index == j {
      GroupUsed(parsed, j);
      MergedIndex(Group(parsed, j));
      assert Group(parsed, j)[0] in Group(parsed, j);
    }
    GroupUsed(parsed, NO_INDEX);
  }

  /** Merged arguments keep one entry per index, at that index. */
  lemma MergedInPlace(args: seq<Arg>, parsed: seq<Arg>)
    requires InOrder(args, parsed) && |args| < U64
    ensures InPlace(Indexed(args))
  {
    hide StoredInOrder, Indexed;
    var k: nat :| k <= |args| && StoredInOrder(args, parsed, k);
    StoredIndices(args, parsed, k);
    assert args == args[..k] + args[k..];
    IndexedOfConcat(args[..k], args[k..]);
    IndexedAllOrNone(args[..k]);
    IndexedAllOrNone(args[k..]);
  }

  lemma {:induction false} ArgsOfInPlace(kernels: seq<KernelMeta>, name: string)
    requires forall k | k in kernels :: InPlace(Indexed(k.args))
    ensures InPlace(ArgsOf(kernels, name))
  {
    if kernels != [] && kernels[0].name != name {
      ArgsOfInPlace(kernels[1..], name);
    }
  }

  /**
   With every kernel's arguments merged as the parser merges them, no connection occurs twice exactly
   when no IP's kernel has more than 2^32 indexed arguments.
   */
  lemma {:induction false} ConnectionsDistinct(
    kernels: seq<KernelMeta>, ips: seq<string>, parsed: KernelMeta -> seq<Arg>)
    requires forall k | k in kernels :: InOrder(k.args, parsed(k)) && |k.args| < U64
    ensures NoDuplicates(Rows(kernels, ips, |ips|)) <==> FewEnough(kernels, ips, |ips|)
  {
    hide InOrder, ArgsOf, Indexed, Rows, InPlace, NoDuplicates;
    forall k | k in kernels ensures InPlace(Indexed(k.args)) {
      MergedInPlace(k.args, parsed(k));
    }
    forall name ensures InPlace(ArgsOf(kernels, name)) {
      ArgsOfInPlace(kernels, name);
    }
    if FewEnough(kernels, ips, |ips|) {
      RowsDistinct(kernels, ips, |ips|);
    } else {
      var ip: nat :| ip < |ips| && |ArgsOf(kernels, KernelName(ips[ip]))| > U32;
      RowsRepeat(kernels, ips, ip);
    }
  }

  // ----- Which arguments an IP is connected by -----

  /** A CU is named after its kernel, with or without a colon and an instance name. */
  lemma {:induction false} KernelNameIs(k: string, inst: string)
    requires ':' !in k
    ensures KernelName(k) == k && KernelName(k + ":" + inst) == k
  {
    var cu := k + ":" + inst;
    if k == [] {
      assert cu[0] == ':';
    } else {
      assert cu[0] == k[0] && k[0] in k && cu[1..] == k[1..] + ":" + inst;
      assert forall c | c in k[1..] :: c in k;
      KernelNameIs(k[1..], inst);
      assert k == [k[0]] + k[1..];
    }
  }

  lemma {:induction false} ArgsOfFirst(kernels: seq<KernelMeta>, f: nat)
    requires f < |kernels| && forall g | 0 <= g < f :: kernels[g].name != kernels[f].name
    ensures ArgsOf(kernels, kernels[f].name) == Indexed(kernels[f].args)
  {
    if f > 0 {
      ArgsOfFirst(kernels[1..], f - 1);
    }
  }

  lemma {:induction false} ArgsOfNone(kernels: seq<KernelMeta>, name: string)
    requires forall k | k in kernels :: k.name != name
    ensures ArgsOf(kernels, name) == []
  {
    if kernels != [] {
      assert kernels[0] in kernels && forall k | k in kernels[1..] :: k in kernels;
      ArgsOfNone(kernels[1..], name);
    }
  }

  /**
   The section's entries for an IP named kernel:instance: one for each indexed argument of the first
   kernel of that name, in order and together, and none if there is no such kernel.
   */
  lemma IpConnections(kernels: seq<KernelMeta>, ips: seq<string>, ip: nat, name: string, inst: string, f: nat)
    returns (at: nat)
    requires ip < |ips| && ':' !in name && (ips[ip] == name + ":" + inst || ips[ip] == name)
    requires f <= |kernels| && (f < |kernels| ==> kernels[f].name == name)
    requires forall g | 0 <= g < f :: kernels[g].name != name
    ensures var args := if f < |kernels| then Indexed(kernels[f].args) else [];
      var rows := Rows(kernels, ips, |ips|);
      && at + |args| <= |rows|
      && (forall k: nat | k < |args| :: rows[at + k] == Connection(Cut(args[k].index), ip, 0))
      && (forall k: nat | k < |rows| && !(at <= k < at + |args|) :: rows[k].ipIndex != ip)
  {
    hide KernelName, ArgsOf, Rows, Cut, Indexed;
    KernelNameIs(name, inst);
    if f < |kernels| {
      ArgsOfFirst(kernels, f);
    } else {
      assert kernels[..f] == kernels;
      ArgsOfNone(kernels, name);
    }
    assert ArgsOf(kernels, KernelName(ips[ip])) == if f < |kernels| then Indexed(kernels[f].args) else [];
    at := RowInRows(kernels, ips, |ips|, ip);
    var args, row := ArgsOf(kernels, KernelName(ips[ip])), Row(kernels, ips, ip);
    forall k: nat | k < |args| ensures Rows(kernels, ips, |ips|)[at + k] == Connection(Cut(args[k].index), ip, 0) {
      assert row[k] == Connection(Cut(args[k].index), ip, 0);
    }
  }
}
