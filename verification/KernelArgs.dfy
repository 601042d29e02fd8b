/**
 Kernel arguments (core/common/xclbin_parser.cpp): the arguments parsed from the xml are stably
 sorted by index, the components of a multi-component argument are merged into the first one, and
 every indexed argument must end up at its own index.
 */
module KernelArgs {
  import opened Common
  import opened Sorting

  const NO_INDEX: u64 := U64 - 1

  datatype Arg = Arg(
    name: string, hosttype: string, port: string, portWidth: u64,
    index: u64, offset: u64, size: u64, hostsize: u64, addressQualifier: u64)

  datatype ParseError = MismatchedArgumentIndex

  // ----- What the result should be -----

  /** The arguments with one index, in the order they were parsed. */
  function IndexOf(a: Arg): nat { a.index }

  function Group(args: seq<Arg>, index: u64): seq<Arg> { Bucket(args, IndexOf, index) }

  function SizeOf(a: Arg): nat { a.size }
  function HostsizeOf(a: Arg): nat { a.hostsize }

  function TotalSize(g: seq<Arg>): nat { Sum(g, SizeOf) }
  function TotalHostsize(g: seq<Arg>): nat { Sum(g, HostsizeOf) }

  function LeastOffset(g: seq<Arg>): (m: u64)
    requires g != []
    ensures exists a :: a in g && a.offset == m
    ensures forall a | a in g :: m <= a.offset
  {
    if |g| == 1 then g[0].offset
    else
      var m := LeastOffset(g[1..]);
      assert g[0] in g && forall a | a in g[1..] :: a in g;
      if g[0].offset <= m then g[0].offset else m
  }

  /** One argument standing for all its components: the first one's identity, sizes modulo 2^64. */
  function Merged(g: seq<Arg>): Arg
    requires g != []
  {
    g[0].(size := TotalSize(g) % U64, hostsize := TotalHostsize(g) % U64, offset := LeastOffset(g))
  }

  predicate Used(args: seq<Arg>, index: nat) {
    exists a :: a in args && a.index == index
  }

  /** The indices in use are 0, 1, .. without a gap. */
  ghost predicate Gapless(args: seq<Arg>) {
    forall i: u64, h: nat | i != NO_INDEX && Used(args, i) && h < i :: Used(args, h)
  }

  lemma GroupUsed(args: seq<Arg>, index: u64)
    ensures Group(args, index) != [] <==> Used(args, index)
    ensures forall a | a in Group(args, index) :: a in args && a.index == index
  {
    hide Bucket;
    BucketMembers(args, IndexOf, index);
    if Group(args, index) != [] {
      assert Group(args, index)[0] in Group(args, index);
    }
  }

  // ----- Runs of equal indices in a sorted list -----

  /** Length of the longest prefix with one index. */
  function Run(args: seq<Arg>, index: u64): (n: nat)
    ensures n <= |args|
    ensures forall k | 0 <= k < n :: args[k].index == index
    ensures n < |args| ==> args[n].index != index
  {
    if args == [] || args[0].index != index then 0 else 1 + Run(args[1..], index)
  }

  function MergeRuns(args: seq<Arg>): seq<Arg>
    decreases |args|
  {
    if args == [] || args[0].index == NO_INDEX then args
    else
      var n := Run(args, args[0].index);
      [Merged(args[..n])] + MergeRuns(args[n..])
  }

  lemma SortedTail(args: seq<Arg>, n: nat)
    requires SortedBy(args, IndexOf) && n <= |args|
    ensures SortedBy(args[n..], IndexOf)
    ensures forall a | a in args[n..] :: args[n].index <= a.index
  {
    forall i, j | 0 <= i < j < |args[n..]| ensures IndexOf(args[n..][i]) <= IndexOf(args[n..][j]) {
      assert args[n..][i] == args[n + i] && args[n..][j] == args[n + j];
    }
    forall a | a in args[n..] ensures args[n].index <= a.index {
      var k :| 0 <= k < |args[n..]| && args[n..][k] == a;
      assert args[n + k] == a && IndexOf(args[n]) <= IndexOf(args[n + k]);
    }
  }

  lemma RunEnds(args: seq<Arg>)
    requires SortedBy(args, IndexOf) && args != []
    ensures var n := Run(args, args[0].index);
      0 < n <= |args| && SortedBy(args[n..], IndexOf) && forall a | a in args[n..] :: a.index > args[0].index
  {
    var n := Run(args, args[0].index);
    assert n > 0;
    if n < |args| {
      assert IndexOf(args[0]) <= IndexOf(args[n]);
    }
    hide SortedBy, Run;
    SortedTail(args, n);
  }

  /** In a sorted list the first run is the whole group of its index, and nothing else of it follows. */
  lemma RunIsGroup(args: seq<Arg>, j: u64)
    requires SortedBy(args, IndexOf) && args != []
    ensures var n := Run(args, args[0].index);
      && 0 < n <= |args|
      && SortedBy(args[n..], IndexOf)
      && (forall a | a in args[n..] :: a.index > args[0].index)
      && Group(args[..n], j) == (if j == args[0].index then args[..n] else [])
      && Group(args, j) == (if j == args[0].index then args[..n] else Group(args[n..], j))
  {
    hide Run, Bucket, SortedBy;
    var i := args[0].index;
    var n := Run(args, i);
    RunEnds(args);
    assert args == args[..n] + args[n..];
    BucketConcat(args[..n], args[n..], IndexOf, j);
    BucketUniform(args[..n], IndexOf, i, j);
    if j == i {
      GroupUsed(args[n..], i);
    }
  }

  /** Merging a sorted list: one argument per index in increasing order, then the unindexed ones. */
  ghost predicate MergedFrom(r: seq<Arg>, args: seq<Arg>, k: nat) {
    && k <= |r|
    && r[k..] == Group(args, NO_INDEX)
    && (forall i | 0 <= i < k :: r[i].index != NO_INDEX)
    && (forall i | 0 <= i < k :: Group(args, r[i].index) != [] && r[i] == Merged(Group(args, r[i].index)))
    && (forall i, j | 0 <= i < j < k :: r[i].index < r[j].index)
    && (forall x: u64 | x != NO_INDEX && Group(args, x) != [] :: exists i :: 0 <= i < k && r[i].index == x)
  }

  /** One merged run put in front of the merged rest. */
  lemma MergedFromCons(a: Arg, args: seq<Arg>, r: seq<Arg>, rest: seq<Arg>, k: nat)
    requires MergedFrom(r, rest, k)
    requires a.index != NO_INDEX && Group(args, a.index) != [] && a == Merged(Group(args, a.index))
    requires forall x: u64 | x != a.index :: Group(args, x) == Group(rest, x)
    requires forall b | b in rest :: b.index > a.index
    ensures MergedFrom([a] + r, args, k + 1)
  {
    hide Merged, Group;
    var r1 := [a] + r;
    forall m | 0 <= m < k ensures r[m].index > a.index {
      GroupUsed(rest, r[m].index);
    }
    assert r1[k + 1..] == r[k..];
    assert forall m | 0 < m < k + 1 :: r1[m] == r[m - 1];
    forall x: u64 | x != NO_INDEX && Group(args, x) != [] ensures exists m :: 0 <= m < k + 1 && r1[m].index == x {
      if x == a.index {
        assert r1[0].index == x;
      } else {
        var m :| 0 <= m < k && r[m].index == x;
        assert r1[m + 1].index == x;
      }
    }
  }

  lemma {:induction false} MergeRunsMerges(args: seq<Arg>) returns (k: nat)
    requires SortedBy(args, IndexOf)
    ensures MergedFrom(MergeRuns(args), args, k)
    decreases |args|
  {
    hide Merged, Bucket, Run;
    if args == [] || args[0].index == NO_INDEX {
      k := 0;
      assert forall a | a in args :: a.index == NO_INDEX;
      forall x: u64 ensures Group(args, x) == if x == NO_INDEX then args else [] {
        BucketUniform(args, IndexOf, NO_INDEX, x);
      }
    } else {
      var i := args[0].index;
      var n := Run(args, i);
      forall x: u64 ensures Group(args, x) == if x == i then args[..n] else Group(args[n..], x) {
        RunIsGroup(args, x);
      }
      RunIsGroup(args, i);
      k := MergeRunsMerges(args[n..]);
      MergedIndex(args[..n]);
      MergedFromCons(Merged(args[..n]), args, MergeRuns(args[n..]), args[n..], k);
      k := k + 1;
    }
  }

  lemma MergedIndex(g: seq<Arg>)
    requires g != []
    ensures Merged(g).index == g[0].index
  {
  }

  // ----- merge_args -----

  /** The check at the end of merge_args. */
  predicate IndicesInPlace(args: seq<Arg>) {
    forall i | 0 <= i < |args| :: args[i].index == i || args[i].index == NO_INDEX
  }

  /** The inner loop: folds the components after idx that share its index into the one at idx. */
  method MergeComponents(args: seq<Arg>, idx: nat) returns (arg: Arg, next: nat)
    requires idx < |args|
    ensures idx < next <= |args| && next == idx + Run(args[idx..], args[idx].index)
    ensures arg == Merged(args[idx..next])
  {
    hide Merged;
    arg, next := args[idx], idx + 1;
    ghost var rest := args[idx..];
    MergedOne(arg);
    assert args[idx..next] == [arg];
    while next < |args| && args[next].index == arg.index
      invariant idx < next <= |args|
      invariant arg == Merged(args[idx..next]) && arg.index == args[idx].index
      invariant forall m | idx <= m < next :: args[m].index == args[idx].index
    {
      MergedMore(args[idx..next], args[next]);
      assert args[idx..next] + [args[next]] == args[idx..next + 1];
      arg := arg.(size := (arg.size + args[next].size) % U64,
                  hostsize := (arg.hostsize + args[next].hostsize) % U64,
                  offset := if args[next].offset < arg.offset then args[next].offset else arg.offset);
      next := next + 1;
    }
    RunIs(rest, args[idx].index, next - idx);
  }

  lemma {:induction false} RunIs(args: seq<Arg>, index: u64, n: nat)
    requires n <= |args| && (forall k | 0 <= k < n :: args[k].index == index) && (n < |args| ==> args[n].index != index)
    ensures Run(args, index) == n
  {
    if n > 0 {
      RunIs(args[1..], index, n - 1);
    }
  }

  lemma Splice<T>(a: seq<T>, x: T, b: seq<T>)
    ensures (a + [x] + b)[..|a| + 1] == a + [x]
    ensures (a + [x] + b)[|a| + 1..] == b
  {
  }

  lemma MergeStep(args: seq<Arg>, idx: nat, next: nat)
    requires idx < next <= |args| && args[idx].index != NO_INDEX
    requires next == idx + Run(args[idx..], args[idx].index)
    ensures var args' := args[..idx] + [Merged(args[idx..next])] + args[next..];
      args'[..idx + 1] + MergeRuns(args'[idx + 1..]) == args[..idx] + MergeRuns(args[idx..])
  {
    hide Merged, Run;
    var front, rest := args[..idx], args[idx..];
    var arg := Merged(args[idx..next]);
    assert rest[..next - idx] == args[idx..next];
    assert rest[next - idx..] == args[next..];
    var m := MergeRuns(args[next..]);
    assert MergeRuns(rest) == [arg] + m;
    Splice(front, arg, args[next..]);
    assert (front + [arg]) + m == front + ([arg] + m);
  }

  lemma Unmerged(args: seq<Arg>, idx: nat)
    requires idx <= |args| && (idx < |args| ==> args[idx].index == NO_INDEX)
    ensures args[..idx] + MergeRuns(args[idx..]) == args
  {
    assert args[..idx] + args[idx..] == args;
  }

  method MergeArgs(input: seq<Arg>) returns (r: Result<seq<Arg>, ParseError>)
    ensures r == if IndicesInPlace(MergeRuns(input)) then Ok(MergeRuns(input)) else Err(MismatchedArgumentIndex)
  {
    hide Merged, Run, MergeRuns;
    var args := input;
    var idx := 0;
    while idx < |args| && args[idx].index != NO_INDEX
      invariant idx <= |args|
      invariant args[..idx] + MergeRuns(args[idx..]) == MergeRuns(input)
      decreases |args| - idx
    {
      var arg, next := MergeComponents(args, idx);
      MergeStep(args, idx, next);
      args := args[..idx] + [arg] + args[next..];
      idx := idx + 1;
    }
    Unmerged(args, idx);

    var argidx := 0;
    while argidx < |args|
      invariant argidx <= |args|
      invariant forall i | 0 <= i < argidx :: args[i].index == i || args[i].index == NO_INDEX
    {
      if args[argidx].index != argidx && args[argidx].index != NO_INDEX {
        return Err(MismatchedArgumentIndex);
      }
      argidx := argidx + 1;
    }
    r := Ok(args);
  }

  lemma MergedOne(a: Arg)
    ensures Merged([a]) == a
  {
    assert [a][1..] == [];
    assert Sum([a], SizeOf) == SizeOf(a) && Sum([a], HostsizeOf) == HostsizeOf(a);
    assert LeastOffset([a]) == a.offset;
  }

  lemma {:induction false} LeastOffsetMore(g: seq<Arg>, a: Arg)
    requires g != []
    ensures LeastOffset(g + [a]) == if a.offset < LeastOffset(g) then a.offset else LeastOffset(g)
  {
    var m := LeastOffset(g + [a]);
    assert a in g + [a] && forall x | x in g :: x in g + [a];
  }

  lemma MergedMore(g: seq<Arg>, a: Arg)
    requires g != []
    ensures var m := Merged(g);
      Merged(g + [a]) == m.(size := (m.size + a.size) % U64, hostsize := (m.hostsize + a.hostsize) % U64,
                            offset := if a.offset < m.offset then a.offset else m.offset)
  {
    hide LeastOffset;
    SumSnoc(g, a, SizeOf);
    SumSnoc(g, a, HostsizeOf);
    LeastOffsetMore(g, a);
    AddMod64(TotalSize(g), a.size);
    AddMod64(TotalHostsize(g), a.hostsize);
  }

  // ----- get_kernel_arguments -----

  lemma InPlaceIffGapless(r: seq<Arg>, args: seq<Arg>, k: nat)
    requires MergedFrom(r, args, k) && |r| < U64
    ensures IndicesInPlace(r) <==> Gapless(args)
  {
    hide Merged, Group;
    forall x: u64 ensures Group(args, x) != [] <==> Used(args, x) {
      GroupUsed(args, x);
    }
    forall a | a in Group(args, NO_INDEX) ensures a.index == NO_INDEX {
      GroupUsed(args, NO_INDEX);
    }
    assert forall i | k <= i < |r| :: r[i] == r[k..][i - k];
    if Gapless(args) {
      InPlaceUpTo(r, args, k, k);
    }
    if IndicesInPlace(r) {
      forall i: u64, h: nat | i != NO_INDEX && Used(args, i) && h < i ensures Used(args, h) {
        var m :| 0 <= m < k && r[m].index == i;
        assert r[h].index == h;
      }
    }
  }

  lemma {:induction false} InPlaceUpTo(r: seq<Arg>, args: seq<Arg>, k: nat, j: nat)
    requires MergedFrom(r, args, k) && |r| < U64 && Gapless(args) && j <= k
    requires forall x: u64 :: Group(args, x) != [] <==> Used(args, x)
    ensures forall i | 0 <= i < j :: r[i].index == i
  {
    hide Merged, Group;
    if j > 0 {
      InPlaceUpTo(r, args, k, j - 1);
      var i := j - 1;
      assert i > 0 ==> r[i - 1].index < r[i].index;
      assert Used(args, r[i].index);
      assert Used(args, i);
      var m :| 0 <= m < k && r[m].index == i;
      assert m >= i;
    }
  }

  lemma {:induction false} RunPositive(args: seq<Arg>)
    ensures |MergeRuns(args)| <= |args|
    decreases |args|
  {
    if args != [] && args[0].index != NO_INDEX {
      RunPositive(args[Run(args, args[0].index)..]);
    }
  }

  /**
   What a caller relies on: with k indexed arguments, argument j < k is stored at j and stands for
   all of j's components, the unindexed arguments follow untouched, and the parse fails exactly
   when the indices in use have a gap.
   */
  method GetKernelArguments(parsed: seq<Arg>) returns (r: Result<seq<Arg>, ParseError>)
    requires |parsed| < U64
    ensures r.Ok? <==> Gapless(parsed)
    ensures r.Ok? ==> InOrder(r.value, parsed)
  {
    hide Group, Merged, MergeRuns, StableSort, SortedBy, Gapless, InOrder;
    var sorted := StableSort(parsed, IndexOf);
    ghost var k := SortedMerge(parsed);
    r := MergeArgs(sorted);
    InPlaceIffGapless(MergeRuns(sorted), parsed, k);
    if r.Ok? {
      MergedInOrder(r.value, parsed, k);
    }
  }

  ghost predicate InOrder(r: seq<Arg>, parsed: seq<Arg>) {
    exists k: nat :: k <= |r| && StoredInOrder(r, parsed, k)
  }

  ghost predicate StoredInOrder(r: seq<Arg>, parsed: seq<Arg>, k: nat)
    requires k <= |r|
  {
    && r[k..] == Group(parsed, NO_INDEX)
    && (forall j: u64 | j != NO_INDEX :: j < k <==> Used(parsed, j))
    && (forall j: u64 | j < k :: Group(parsed, j) != [] && r[j] == Merged(Group(parsed, j)))
  }

  lemma SortedMerge(parsed: seq<Arg>) returns (k: nat)
    ensures MergedFrom(MergeRuns(StableSort(parsed, IndexOf)), parsed, k)
    ensures |MergeRuns(StableSort(parsed, IndexOf))| <= |parsed|
  {
    hide Bucket, Merged, MergeRuns, StableSort, SortedBy;
    var sorted := StableSort(parsed, IndexOf);
    forall x: u64 ensures Group(sorted, x) == Group(parsed, x) {
      StableSortIsStable(parsed, IndexOf, x);
    }
    StableSortSorts(parsed, IndexOf);
    k := MergeRunsMerges(sorted);
    RunPositive(sorted);
  }

  lemma MergedInOrder(r: seq<Arg>, parsed: seq<Arg>, k: nat)
    requires MergedFrom(r, parsed, k) && IndicesInPlace(r) && |r| < U64
    ensures InOrder(r, parsed)
  {
    hide Group, Merged;
    forall x: u64 ensures Group(parsed, x) != [] <==> Used(parsed, x) {
      GroupUsed(parsed, x);
    }
    forall j: u64 | j < k ensures r[j].index == j {
    }
    forall j: u64 | j != NO_INDEX ensures j < k <==> Used(parsed, j) {
      if Used(parsed, j) {
        var m :| 0 <= m < k && r[m].index == j;
      }
      if j < k {
        assert Used(parsed, r[j].index);
      }
    }
    assert StoredInOrder(r, parsed, k);
  }
}
