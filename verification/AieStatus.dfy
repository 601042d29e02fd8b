/**
 Reading the AIE status dump (core/common/info_aie2.cpp): the three tile parsers, the packed vector
 of active columns, and the report that lines the packed vector up with the column bitmap again.
 */
module AieStatus {
  import opened Common
  import opened AieLayout
  import opened Bits

  // ----- What each parser is expected to return: its part of every decoded column -----

  function CorePart(cs: seq<Column>): seq<seq<CoreTile>> { seq(|cs|, k requires 0 <= k < |cs| => cs[k].core) }
  function MemPart(cs: seq<Column>): seq<seq<EdgeTile>> { seq(|cs|, k requires 0 <= k < |cs| => cs[k].mem) }
  function ShimPart(cs: seq<Column>): seq<seq<EdgeTile>> { seq(|cs|, k requires 0 <= k < |cs| => cs[k].shim) }

  /** A dump of n columns of the advertised size. */
  predicate Holds(raw: seq<byte>, i: TilesInfo, n: nat) {
    Sane(i) && Span(i.colSize, n) <= |raw|
  }

  lemma {:induction false} HoldsSpan(raw: seq<byte>, i: TilesInfo, n: nat)
    requires Holds(raw, i, n)
    ensures Span(ColumnSize(i), n) <= |raw|
  {
  }

  /** Such dumps exist: one column of a single core tile with nothing but its registers. */
  lemma DumpExists() returns (raw: seq<byte>, i: TilesInfo)
    ensures Holds(raw, i, 1)
  {
    raw := seq(16, _ => 0);
    i := TilesInfo(16, 1, 1, 0, 0, 0, 0, 0, 0, 0, 0, 0, 0, 0, 0, 0, 0);
    assert CoreSpan(i) == 16;
  }

  function Decoded(raw: seq<byte>, i: TilesInfo, n: nat): (cs: seq<Column>)
    requires Holds(raw, i, n)
    ensures |cs| == n
  {
    HoldsSpan(raw, i, n);
    DecodeColumns(raw, 0, n, i)
  }

  // ----- The parsers: one cursor over the whole buffer -----

  method ReadCoreTile(raw: seq<byte>, start: nat, i: TilesInfo) returns (t: CoreTile, buf: nat)
    requires start + CoreSize(i) <= |raw|
    ensures t == DecodeCore(raw, start, i) && buf == start + CoreSize(i)
  {
    buf := start;
    var dma := Dmas(raw, buf, i.coreDma);
    buf := buf + 8 * i.coreDma;
    var coreEvents := Words(raw, buf, i.coreEvents);
    buf := buf + 4 * i.coreEvents;
    var memEvents := Words(raw, buf, i.coreEvents);
    buf := buf + 4 * i.coreEvents;
    var status := Word(raw, buf);
    buf := buf + 4;
    var pc := Word(raw, buf);
    buf := buf + 4;
    var sp := Word(raw, buf);
    buf := buf + 4;
    var lr := Word(raw, buf);
    buf := buf + 4;
    var locks := raw[buf..buf + i.coreLocks];
    buf := buf + i.coreLocks;
    t := CoreTile(dma, coreEvents, memEvents, status, pc, sp, lr, locks);
  }

  method ReadEdgeTile(raw: seq<byte>, start: nat, f: EdgeShape) returns (t: EdgeTile, buf: nat)
    requires start + EdgeSize(f) <= |raw|
    ensures t == DecodeEdge(raw, start, f) && buf == start + EdgeSize(f)
  {
    buf := start;
    var dma := Dmas(raw, buf, f.dma);
    buf := buf + 8 * f.dma;
    var events := Words(raw, buf, f.events);
    buf := buf + 4 * f.events;
    var locks := raw[buf..buf + f.locks];
    buf := buf + f.locks;
    t := EdgeTile(dma, events, locks);
  }

  lemma FirstCore(raw: seq<byte>, p: nat, n: nat, i: TilesInfo)
    requires n > 0 && p + Span(CoreSize(i), n) <= |raw|
    ensures Span(CoreSize(i), n) == CoreSize(i) + Span(CoreSize(i), n - 1)
    ensures DecodeCores(raw, p, n, i) == [DecodeCore(raw, p, i)] + DecodeCores(raw, p + CoreSize(i), n - 1, i)
  {
    hide DecodeCore, CoreSize;
  }

  lemma FirstEdge(raw: seq<byte>, p: nat, n: nat, f: EdgeShape)
    requires n > 0 && p + Span(EdgeSize(f), n) <= |raw|
    ensures Span(EdgeSize(f), n) == EdgeSize(f) + Span(EdgeSize(f), n - 1)
    ensures DecodeEdges(raw, p, n, f) == [DecodeEdge(raw, p, f)] + DecodeEdges(raw, p + EdgeSize(f), n - 1, f)
  {
    hide DecodeEdge, EdgeSize;
  }

  lemma {:induction false} NoTiles(size: nat)
    ensures Span(size, 0) == 0
  {
  }

  method ReadCoreTiles(raw: seq<byte>, start: nat, i: TilesInfo) returns (ts: seq<CoreTile>, buf: nat)
    requires start + CoreSpan(i) <= |raw|
    ensures ts == DecodeCores(raw, start, i.coreRows, i) && buf == start + CoreSpan(i)
  {
    hide DecodeCore, DecodeCores, CoreSize, Span;
    ts, buf := [], start;
    while |ts| < i.coreRows
      invariant |ts| <= i.coreRows
      invariant buf + Span(CoreSize(i), i.coreRows - |ts|) == start + CoreSpan(i)
      invariant ts + DecodeCores(raw, buf, i.coreRows - |ts|, i) == DecodeCores(raw, start, i.coreRows, i)
    {
      FirstCore(raw, buf, i.coreRows - |ts|, i);
      var t;
      t, buf := ReadCoreTile(raw, buf, i);
      Append(ts, t, DecodeCores(raw, buf, i.coreRows - |ts| - 1, i));
      ts := ts + [t];
    }
    NoTiles(CoreSize(i));
  }

  method ReadEdgeTiles(raw: seq<byte>, start: nat, n: nat, f: EdgeShape) returns (ts: seq<EdgeTile>, buf: nat)
    requires start + Span(EdgeSize(f), n) <= |raw|
    ensures ts == DecodeEdges(raw, start, n, f) && buf == start + Span(EdgeSize(f), n)
  {
    hide DecodeEdge, DecodeEdges, EdgeSize, Span;
    ts, buf := [], start;
    while |ts| < n
      invariant |ts| <= n
      invariant buf + Span(EdgeSize(f), n - |ts|) == start + Span(EdgeSize(f), n)
      invariant ts + DecodeEdges(raw, buf, n - |ts|, f) == DecodeEdges(raw, start, n, f)
    {
      FirstEdge(raw, buf, n - |ts|, f);
      var t;
      t, buf := ReadEdgeTile(raw, buf, f);
      Append(ts, t, DecodeEdges(raw, buf, n - |ts| - 1, f));
      ts := ts + [t];
    }
    NoTiles(EdgeSize(f));
  }

  lemma FirstColumn(raw: seq<byte>, p: nat, n: nat, i: TilesInfo)
    requires n > 0 && p + Span(ColumnSize(i), n) <= |raw|
    ensures DecodeColumns(raw, p, n, i) == [DecodeColumn(raw, p, i)] + DecodeColumns(raw, p + ColumnSize(i), n - 1, i)
  {
  }

  lemma SpanStep(size: nat, n: nat)
    requires n > 0
    ensures Span(size, n) == size + Span(size, n - 1)
  {
  }

  lemma PartsCons(c: Column, cs: seq<Column>)
    ensures CorePart([c] + cs) == [c.core] + CorePart(cs)
    ensures MemPart([c] + cs) == [c.mem] + MemPart(cs)
    ensures ShimPart([c] + cs) == [c.shim] + ShimPart(cs)
  {
  }

  method ParseCoreTiles(raw: seq<byte>, i: TilesInfo, n: nat) returns (cols: seq<seq<CoreTile>>)
    requires Holds(raw, i, n)
    ensures cols == CorePart(Decoded(raw, i, n))
  {
    hide CoreSize, EdgeSize, ColumnSize, CoreSpan, MemSpan, ShimSpan, CoreBytes, MemBytes, ShimBytes, Span, Holds;
    hide DecodeCores, DecodeEdges, DecodeColumns;
    HoldsSpan(raw, i, n);
    SpanProducts(i);
    cols := [];
    var buf: nat := 0;
    while |cols| < n
      invariant |cols| <= n && buf + Span(ColumnSize(i), n - |cols|) <= |raw|
      invariant cols + CorePart(DecodeColumns(raw, buf, n - |cols|, i)) == CorePart(Decoded(raw, i, n))
    {
      hide CorePart;
      SpanStep(ColumnSize(i), n - |cols|);
      FirstColumn(raw, buf, n - |cols|, i);
      PartsCons(DecodeColumn(raw, buf, i), DecodeColumns(raw, buf + ColumnSize(i), n - |cols| - 1, i));
      var col, buf1 := ReadCoreTiles(raw, buf, i);
      cols := cols + [col];
      buf := buf1 + MemBytes(i) + ShimBytes(i);
    }
  }

  method ParseMemTiles(raw: seq<byte>, i: TilesInfo, n: nat) returns (cols: seq<seq<EdgeTile>>)
    requires Holds(raw, i, n)
    ensures cols == MemPart(Decoded(raw, i, n))
  {
    hide CoreSize, EdgeSize, ColumnSize, CoreSpan, MemSpan, ShimSpan, CoreBytes, MemBytes, ShimBytes, Span, Holds;
    hide DecodeCores, DecodeEdges, DecodeColumns;
    HoldsSpan(raw, i, n);
    SpanProducts(i);
    cols := [];
    var buf: nat := 0;
    while |cols| < n
      invariant |cols| <= n && buf + Span(ColumnSize(i), n - |cols|) <= |raw|
      invariant cols + MemPart(DecodeColumns(raw, buf, n - |cols|, i)) == MemPart(Decoded(raw, i, n))
    {
      hide MemPart;
      SpanStep(ColumnSize(i), n - |cols|);
      FirstColumn(raw, buf, n - |cols|, i);
      PartsCons(DecodeColumn(raw, buf, i), DecodeColumns(raw, buf + ColumnSize(i), n - |cols| - 1, i));
      buf := buf + CoreBytes(i);
      var col, buf1 := ReadEdgeTiles(raw, buf, i.memRows, MemShape(i));
      cols := cols + [col];
      buf := buf1 + ShimBytes(i);
    }
  }

  method ParseShimTiles(raw: seq<byte>, i: TilesInfo, n: nat) returns (cols: seq<seq<EdgeTile>>)
    requires Holds(raw, i, n)
    ensures cols == ShimPart(Decoded(raw, i, n))
  {
    hide CoreSize, EdgeSize, ColumnSize, CoreSpan, MemSpan, ShimSpan, CoreBytes, MemBytes, ShimBytes, Span, Holds;
    hide DecodeCores, DecodeEdges, DecodeColumns;
    HoldsSpan(raw, i, n);
    SpanProducts(i);
    cols := [];
    var buf: nat := 0;
    while |cols| < n
      invariant |cols| <= n && buf + Span(ColumnSize(i), n - |cols|) <= |raw|
      invariant cols + ShimPart(DecodeColumns(raw, buf, n - |cols|, i)) == ShimPart(Decoded(raw, i, n))
    {
      hide ShimPart;
      SpanStep(ColumnSize(i), n - |cols|);
      FirstColumn(raw, buf, n - |cols|, i);
      PartsCons(DecodeColumn(raw, buf, i), DecodeColumns(raw, buf + ColumnSize(i), n - |cols| - 1, i));
      buf := buf + CoreBytes(i) + MemBytes(i);
      var col, buf1 := ReadEdgeTiles(raw, buf, i.shimRows, ShimShape(i));
      cols := cols + [col];
      buf := buf1;
    }
  }

  // ----- Every byte is read by exactly one parser -----

  /** The two buffers agree on the bytes from p up to p + len. */
  predicate SameBytes(s: seq<byte>, t: seq<byte>, p: nat, len: nat) {
    p + len <= |s| && p + len <= |t| && s[p..p + len] == t[p..p + len]
  }

  lemma {:induction false} SameCores(s: seq<byte>, t: seq<byte>, p: nat, n: nat, i: TilesInfo)
    requires p + Span(CoreSize(i), n) <= |s| && p + Span(CoreSize(i), n) <= |t|
    ensures DecodeCores(s, p, n, i) == DecodeCores(t, p, n, i) <==> SameBytes(s, t, p, Span(CoreSize(i), n))
  {
    hide CoreSize, Span;
    var ts := DecodeCores(s, p, n, i);
    DecodedCoresFit(s, p, n, i);
    CoresAt(s, p, ts, i);
    CoresAt(t, p, ts, i);
    AtSlice(s, p, EncodeCores(ts));
    AtSlice(t, p, EncodeCores(ts));
  }

  lemma {:induction false} DecodedCoresFit(s: seq<byte>, p: nat, n: nat, i: TilesInfo)
    requires p + Span(CoreSize(i), n) <= |s|
    ensures forall t | t in DecodeCores(s, p, n, i) :: CoreFits(t, i)
    decreases n
  {
    hide Words, Dmas, Word;
    if n > 0 {
      DecodedCoresFit(s, p + CoreSize(i), n - 1, i);
    }
  }

  lemma {:induction false} DecodedEdgesFit(s: seq<byte>, p: nat, n: nat, f: EdgeShape)
    requires p + Span(EdgeSize(f), n) <= |s|
    ensures forall t | t in DecodeEdges(s, p, n, f) :: EdgeFits(t, f)
    decreases n
  {
    hide Words, Dmas, Word;
    if n > 0 {
      DecodedEdgesFit(s, p + EdgeSize(f), n - 1, f);
    }
  }

  lemma {:induction false} SameEdges(s: seq<byte>, t: seq<byte>, p: nat, n: nat, f: EdgeShape)
    requires p + Span(EdgeSize(f), n) <= |s| && p + Span(EdgeSize(f), n) <= |t|
    ensures DecodeEdges(s, p, n, f) == DecodeEdges(t, p, n, f) <==> SameBytes(s, t, p, Span(EdgeSize(f), n))
  {
    hide EdgeSize, Span;
    var ts := DecodeEdges(s, p, n, f);
    DecodedEdgesFit(s, p, n, f);
    EdgesAt(s, p, ts, f);
    EdgesAt(t, p, ts, f);
    AtSlice(s, p, EncodeEdges(ts));
    AtSlice(t, p, EncodeEdges(ts));
  }

  datatype TileType = CoreTiles | MemTiles | ShimTiles

  /** Where the bytes of one kind of tile start in a column, and how many there are. */
  function Offset(i: TilesInfo, kind: TileType): nat {
    match kind case CoreTiles => 0 case MemTiles => CoreSpan(i) case ShimTiles => CoreSpan(i) + MemSpan(i)
  }

  function Length(i: TilesInfo, kind: TileType): nat {
    match kind case CoreTiles => CoreSpan(i) case MemTiles => MemSpan(i) case ShimTiles => ShimSpan(i)
  }

  /** The one parser that byte o of a column is meant for. */
  function Owner(i: TilesInfo, o: nat): TileType {
    if o < CoreSpan(i) then CoreTiles else if o < CoreSpan(i) + MemSpan(i) then MemTiles else ShimTiles
  }

  /** Where byte o of column c is in the dump. */
  function Pos(i: TilesInfo, c: nat, o: nat): nat { Span(i.colSize, c) + o }

  lemma {:induction false} PosInside(i: TilesInfo, n: nat, c: nat, o: nat)
    requires c < n && o < i.colSize
    ensures Pos(i, c, o) < Span(i.colSize, n)
  {
    SpanIsProduct(i.colSize, c);
    SpanIsProduct(i.colSize, n);
    MulMonotone(c + 1, n, i.colSize);
    assert (c + 1) * i.colSize == i.colSize * c + i.colSize;
  }

  /** Every byte of a dump of n columns is some column's byte. */
  lemma {:induction false} PosOnto(i: TilesInfo, n: nat, k: nat)
    requires i.colSize > 0 && k < Span(i.colSize, n)
    ensures k / i.colSize < n && k % i.colSize < i.colSize && Pos(i, k / i.colSize, k % i.colSize) == k
  {
    SpanIsProduct(i.colSize, n);
    DivMod(k, i.colSize, n);
    SpanIsProduct(i.colSize, k / i.colSize);
  }

  lemma DivMod(k: nat, size: nat, n: nat)
    requires k < size * n
    ensures size > 0 && k / size < n && size * (k / size) + k % size == k
  {
    MulLess(k / size, n, size);
  }

  predicate SameAt(s: seq<byte>, t: seq<byte>, k: nat) {
    k < |s| && k < |t| && s[k] == t[k]
  }

  /** The two dumps agree on the bytes of column c that belong to one parser. */
  ghost predicate SameOwned(s: seq<byte>, t: seq<byte>, i: TilesInfo, c: nat, kind: TileType) {
    forall o: nat | o < i.colSize && Owner(i, o) == kind :: SameAt(s, t, Pos(i, c, o))
  }

  lemma {:induction false} ColumnIndex(raw: seq<byte>, p: nat, n: nat, c: nat, i: TilesInfo)
    requires c < n && p + Span(ColumnSize(i), n) <= |raw|
    ensures p + Span(ColumnSize(i), c) + ColumnSize(i) <= |raw|
    ensures DecodeColumns(raw, p, n, i)[c] == DecodeColumn(raw, p + Span(ColumnSize(i), c), i)
    decreases n
  {
    hide ColumnSize, DecodeColumns, DecodeColumn;
    FirstColumn(raw, p, n, i);
    if c > 0 {
      ColumnIndex(raw, p + ColumnSize(i), n - 1, c - 1, i);
    }
  }

  lemma SameColumn(s: seq<byte>, t: seq<byte>, p: nat, i: TilesInfo, kind: TileType)
    requires p + ColumnSize(i) <= |s| && p + ColumnSize(i) <= |t|
    ensures Part(DecodeColumn(s, p, i), kind) == Part(DecodeColumn(t, p, i), kind) <==>
            SameBytes(s, t, p + Offset(i, kind), Length(i, kind))
  {
    hide DecodeCores, DecodeEdges, Span, SameBytes, CoreSize, EdgeSize;
    match kind
    case CoreTiles => SameCores(s, t, p, i.coreRows, i);
    case MemTiles => SameEdges(s, t, p + CoreSpan(i), i.memRows, MemShape(i));
    case ShimTiles => SameEdges(s, t, p + CoreSpan(i) + MemSpan(i), i.shimRows, ShimShape(i));
  }

  datatype Tiles = Core(core: seq<CoreTile>) | Edge(edge: seq<EdgeTile>)

  /** One parser's share of a column. */
  function Part(c: Column, kind: TileType): Tiles {
    match kind case CoreTiles => Core(c.core) case MemTiles => Edge(c.mem) case ShimTiles => Edge(c.shim)
  }

  lemma SameSlice(s: seq<byte>, t: seq<byte>, p: nat, len: nat)
    requires p + len <= |s| && p + len <= |t|
    ensures SameBytes(s, t, p, len) <==> forall k | p <= k < p + len :: s[k] == t[k]
  {
    if SameBytes(s, t, p, len) {
      forall k | p <= k < p + len ensures s[k] == t[k] {
        assert s[p..p + len][k - p] == t[p..p + len][k - p];
      }
    }
  }

  /** One column: agreeing on the owned bytes is agreeing on the slice the parser copies from. */
  lemma OwnedIsSlice(s: seq<byte>, t: seq<byte>, i: TilesInfo, n: nat, c: nat, kind: TileType)
    requires Holds(s, i, n) && Holds(t, i, n) && c < n
    ensures SameBytes(s, t, Pos(i, c, 0) + Offset(i, kind), Length(i, kind)) <==> SameOwned(s, t, i, c, kind)
  {
    hide CoreSpan, MemSpan, ShimSpan, Span, SameBytes;
    PosInside(i, n, c, i.colSize - 1);
    var base, off, len := Pos(i, c, 0), Offset(i, kind), Length(i, kind);
    SameSlice(s, t, base + off, len);
    if SameOwned(s, t, i, c, kind) {
      forall k | base + off <= k < base + off + len ensures s[k] == t[k] {
        assert Owner(i, k - base) == kind && Pos(i, c, k - base) == k;
        assert SameAt(s, t, Pos(i, c, k - base));
      }
    }
  }

  /**
   Each parser's output is determined by the bytes it owns and determines them: two dumps give one
   parser the same tiles exactly when they agree on that parser's bytes.  As every byte has one
   owner, every byte is read by exactly one parser.
   */
  lemma ParserReadsExactlyItsBytes(s: seq<byte>, t: seq<byte>, i: TilesInfo, n: nat, kind: TileType)
    requires Holds(s, i, n) && Holds(t, i, n)
    ensures (forall c: nat | c < n :: Part(Decoded(s, i, n)[c], kind) == Part(Decoded(t, i, n)[c], kind))
            <==> (forall c: nat | c < n :: SameOwned(s, t, i, c, kind))
  {
    hide Part, DecodeColumn, DecodeColumns, SameBytes, CoreSize, EdgeSize, CoreSpan, MemSpan, ShimSpan, Span;
    HoldsSpan(s, i, n);
    HoldsSpan(t, i, n);
    forall c: nat | c < n
      ensures Part(Decoded(s, i, n)[c], kind) == Part(Decoded(t, i, n)[c], kind) <==> SameOwned(s, t, i, c, kind)
    {
      ColumnIndex(s, 0, n, c, i);
      ColumnIndex(t, 0, n, c, i);
      SameColumn(s, t, Pos(i, c, 0), i, kind);
      OwnedIsSlice(s, t, i, n, c, kind);
    }
  }

  /** The tile read at a position of the dump. */
  predicate CoreReadAt(t: CoreTile, raw: seq<byte>, q: int, i: TilesInfo) {
    0 <= q && q + CoreSize(i) <= |raw| && t == DecodeCore(raw, q, i)
  }

  predicate EdgeReadAt(t: EdgeTile, raw: seq<byte>, q: int, f: EdgeShape) {
    0 <= q && q + EdgeSize(f) <= |raw| && t == DecodeEdge(raw, q, f)
  }

  lemma CoreIndex(raw: seq<byte>, p: nat, n: nat, i: TilesInfo, r: nat)
    requires p + Span(CoreSize(i), n) <= |raw| && r < n
    ensures CoreReadAt(DecodeCores(raw, p, n, i)[r], raw, p + CoreSize(i) * r, i)
  {
    hide DecodeCore, CoreSize;
    AllIndex(|raw|, p, n, CoreSize(i), CoreReader(raw, i), r);
    SpanIsProduct(CoreSize(i), r);
  }

  lemma EdgeIndex(raw: seq<byte>, p: nat, n: nat, f: EdgeShape, r: nat)
    requires p + Span(EdgeSize(f), n) <= |raw| && r < n
    ensures EdgeReadAt(DecodeEdges(raw, p, n, f)[r], raw, p + EdgeSize(f) * r, f)
  {
    hide DecodeEdge, EdgeSize;
    AllIndex(|raw|, p, n, EdgeSize(f), EdgeReader(raw, f), r);
    SpanIsProduct(EdgeSize(f), r);
  }

  /**
   Where each tile is read: row r of column c, with the core rows first in a column, the mem rows
   behind them and the shim rows last.
   */
  lemma TileAt(raw: seq<byte>, i: TilesInfo, n: nat, c: nat, r: nat)
    requires Holds(raw, i, n) && c < n
    ensures var col := Decoded(raw, i, n)[c];
      var p := i.colSize * c;
      var m := p + CoreSize(i) * i.coreRows;
      var s := m + EdgeSize(MemShape(i)) * i.memRows;
      && |col.core| == i.coreRows && |col.mem| == i.memRows && |col.shim| == i.shimRows
      && (r < i.coreRows ==> CoreReadAt(col.core[r], raw, p + CoreSize(i) * r, i))
      && (r < i.memRows ==> EdgeReadAt(col.mem[r], raw, m + EdgeSize(MemShape(i)) * r, MemShape(i)))
      && (r < i.shimRows ==> EdgeReadAt(col.shim[r], raw, s + EdgeSize(ShimShape(i)) * r, ShimShape(i)))
  {
    hide CoreReadAt, EdgeReadAt, DecodeCores, DecodeEdges, DecodeColumns, CoreSize, EdgeSize, Span;
    HoldsSpan(raw, i, n);
    ColumnIndex(raw, 0, n, c, i);
    SpanIsProduct(i.colSize, c);
    SpanProducts(i);
    var p := i.colSize * c;
    if r < i.coreRows {
      CoreIndex(raw, p, i.coreRows, i, r);
    }
    if r < i.memRows {
      EdgeIndex(raw, p + CoreSpan(i), i.memRows, MemShape(i), r);
    }
    if r < i.shimRows {
      EdgeIndex(raw, p + CoreSpan(i) + MemSpan(i), i.shimRows, ShimShape(i), r);
    }
  }

  // ----- The bitmap of active columns -----

  function PopCount(bitmap: nat): nat {
    if bitmap == 0 then 0 else bitmap % 2 + PopCount(bitmap / 2)
  }

  /** The number of active columns below col. */
  function Rank(bitmap: nat, col: nat): nat {
    if col == 0 then 0 else bitmap % 2 + Rank(bitmap / 2, col - 1)
  }

  lemma {:induction false} RankStep(bitmap: nat, col: nat)
    ensures Rank(bitmap, col + 1) == Rank(bitmap, col) + if Bit(bitmap, col) then 1 else 0
  {
    if col > 0 {
      RankStep(bitmap / 2, col - 1);
    }
  }

  /** The active columns below col. */
  function ActiveBelow(bitmap: nat, col: nat): set<nat> { set c: nat | c < col && Bit(bitmap, c) }

  /** The rank counts the active columns below, and the popcount all of them. */
  lemma {:induction false} RankCounts(bitmap: nat, col: nat)
    ensures Rank(bitmap, col) == |ActiveBelow(bitmap, col)|
  {
    hide Bit;
    if col == 0 {
      assert ActiveBelow(bitmap, col) == {};
    } else {
      RankCounts(bitmap, col - 1);
      RankStep(bitmap, col - 1);
      var before := ActiveBelow(bitmap, col - 1);
      assert ActiveBelow(bitmap, col) == if Bit(bitmap, col - 1) then before + {col - 1} else before;
    }
  }

  lemma {:induction false} PopCountIsRank(bitmap: nat, n: nat)
    requires bitmap < Pow2(n)
    ensures PopCount(bitmap) == Rank(bitmap, n)
  {
    if n > 0 {
      PopCountIsRank(bitmap / 2, n - 1);
    }
  }

  /** An active column's rank is an index into the packed vector, and ranks grow with the columns. */
  lemma {:induction false} RankInBounds(bitmap: nat, col: nat)
    ensures Rank(bitmap, col) <= PopCount(bitmap)
    ensures Bit(bitmap, col) ==> Rank(bitmap, col) < PopCount(bitmap)
  {
    if col > 0 {
      RankInBounds(bitmap / 2, col - 1);
    }
  }

  lemma {:induction false} RankMonotone(bitmap: nat, a: nat, b: nat)
    requires a < b && Bit(bitmap, a)
    ensures Rank(bitmap, a) < Rank(bitmap, b)
    decreases b
  {
    if b == a + 1 {
      RankStep(bitmap, a);
    } else {
      RankMonotone(bitmap, a, b - 1);
      RankStep(bitmap, b - 1);
    }
  }

  method CountActive(columnsFilled: nat) returns (entries: nat)
    ensures entries == PopCount(columnsFilled)
  {
    entries := 0;
    var colsFilled := columnsFilled;
    while colsFilled != 0
      invariant entries + PopCount(colsFilled) == PopCount(columnsFilled)
    {
      if colsFilled % 2 == 1 {
        entries := entries + 1;
      }
      colsFilled := colsFilled / 2;
    }
  }

  // ----- The report -----

  datatype StatusError = NoOpenContext

  /** What the report should show for column col: nothing when inactive, else its packed entry. */
  function Shown(raw: seq<byte>, bitmap: nat, i: TilesInfo, kind: TileType, col: nat): Option<Tiles>
    requires Holds(raw, i, PopCount(bitmap))
  {
    if Bit(bitmap, col) then
      RankInBounds(bitmap, col);
      Some(Part(Decoded(raw, i, PopCount(bitmap))[Rank(bitmap, col)], kind))
    else None
  }

  method GetAieData(raw: seq<byte>, bitmap: nat, i: TilesInfo, kind: TileType)
    returns (r: Result<seq<Tiles>, StatusError>)
    requires Holds(raw, i, PopCount(bitmap))
    ensures r.Err? <==> bitmap == 0
    ensures r.Ok? ==> |r.value| == PopCount(bitmap)
    ensures r.Ok? ==> forall c | 0 <= c < |r.value| :: r.value[c] == Part(Decoded(raw, i, PopCount(bitmap))[c], kind)
  {
    hide Holds, Decoded, PopCount;
    if bitmap == 0 {
      return Err(NoOpenContext);
    }
    var n := CountActive(bitmap);
    match kind
    case CoreTiles =>
      var cols := ParseCoreTiles(raw, i, n);
      return Ok(seq(n, c requires 0 <= c < n => Core(cols[c])));
    case ShimTiles =>
      var cols := ParseShimTiles(raw, i, n);
      return Ok(seq(n, c requires 0 <= c < n => Edge(cols[c])));
    case MemTiles =>
      var cols := ParseMemTiles(raw, i, n);
      return Ok(seq(n, c requires 0 <= c < n => Edge(cols[c])));
  }

  /** 1 << col is only defined for the 32 bits of the bitmap, hence the bound on the columns. */
  method FormatStatus(raw: seq<byte>, bitmap: nat, i: TilesInfo, kind: TileType)
    returns (r: Result<seq<Option<Tiles>>, StatusError>)
    requires bitmap < U32 && i.cols <= 32
    requires Holds(raw, i, PopCount(bitmap))
    ensures r.Err? <==> bitmap == 0
    ensures r.Ok? ==> |r.value| == i.cols
    ensures r.Ok? ==> forall col: nat | col < i.cols :: r.value[col] == Shown(raw, bitmap, i, kind, col)
  {
    hide Holds, Decoded, PopCount, Part;
    var data := GetAieData(raw, bitmap, i, kind);
    if data.Err? {
      return Err(data.error);
    }
    var report := [];
    var activeColumns := 0;
    for col := 0 to i.cols
      invariant |report| == col && activeColumns == Rank(bitmap, col)
      invariant forall c: nat | c < col :: report[c] == Shown(raw, bitmap, i, kind, c)
    {
      RankStep(bitmap, col);
      if !Bit(bitmap, col) {
        report := report + [None];
      } else {
        RankInBounds(bitmap, col);
        report := report + [Some(data.value[activeColumns])];
        activeColumns := activeColumns + 1;
      }
    }
    r := Ok(report);
  }

  // ----- From the columns through the dump and back -----

  /** The active columns' contents in column order: what the driver packs. */
  function Pack(bitmap: nat, from: nat, content: nat -> Column): (cs: seq<Column>)
    ensures |cs| == PopCount(bitmap)
    decreases bitmap
  {
    if bitmap == 0 then []
    else (if bitmap % 2 == 1 then [content(from)] else []) + Pack(bitmap / 2, from + 1, content)
  }

  lemma {:induction false} PackAt(bitmap: nat, from: nat, content: nat -> Column, col: nat)
    requires Bit(bitmap, col)
    ensures Rank(bitmap, col) < PopCount(bitmap)
    ensures Pack(bitmap, from, content)[Rank(bitmap, col)] == content(from + col)
    decreases col
  {
    RankInBounds(bitmap, col);
    if col > 0 {
      PackAt(bitmap / 2, from + 1, content, col - 1);
    }
  }

  lemma {:induction false} PackFits(bitmap: nat, from: nat, content: nat -> Column, i: TilesInfo)
    requires forall c: nat | Bit(bitmap, c) :: Fits(content(from + c), i)
    ensures forall c | c in Pack(bitmap, from, content) :: Fits(c, i)
    decreases bitmap
  {
    hide Fits;
    if bitmap != 0 {
      assert forall c: nat | Bit(bitmap / 2, c) :: Bit(bitmap, c + 1);
      if bitmap % 2 == 1 {
        assert Bit(bitmap, 0);
      }
      PackFits(bitmap / 2, from + 1, content, i);
    }
  }

  /**
   The whole path: whatever the active columns held when they were packed and laid out, the report
   shows for every active column exactly that column's tiles, for each of the three tile kinds.
   */
  lemma {:induction false} ReportShowsColumnContents(
    raw: seq<byte>, bitmap: nat, i: TilesInfo, content: nat -> Column, kind: TileType, col: nat)
    requires Sane(i) && forall c: nat | Bit(bitmap, c) :: Fits(content(c), i)
    requires raw == EncodeColumns(Pack(bitmap, 0, content))
    ensures Holds(raw, i, PopCount(bitmap))
    ensures Shown(raw, bitmap, i, kind, col) ==
      if !Bit(bitmap, col) then None
      else Some(match kind
                case CoreTiles => Core(content(col).core)
                case MemTiles => Edge(content(col).mem)
                case ShimTiles => Edge(content(col).shim))
  {
    hide Fits, EncodeColumns, DecodeColumns, Sane, PopCount, Pack, Rank, Bit;
    var cs := Pack(bitmap, 0, content);
    PackFits(bitmap, 0, content, i);
    RoundTrip(cs, i);
    if Bit(bitmap, col) {
      PackAt(bitmap, 0, content, col);
    }
  }

  /** Laying columns out and decoding them is the identity, and so is the other way round. */
  lemma RoundTrip(cs: seq<Column>, i: TilesInfo)
    requires Sane(i) && forall c | c in cs :: Fits(c, i)
    ensures Holds(EncodeColumns(cs), i, |cs|)
    ensures Decoded(EncodeColumns(cs), i, |cs|) == cs
  {
    hide Fits, At, EncodeColumns, DecodeColumns, ColumnSize, Span;
    var raw := EncodeColumns(cs);
    SpanIsProduct(ColumnSize(i), |cs|);
    EncodedLength(cs, i);
    ColumnsAt(raw, 0, cs, i);
    AtSlice(raw, 0, raw);
  }

  lemma {:induction false} EncodedLength(cs: seq<Column>, i: TilesInfo)
    requires forall c | c in cs :: Fits(c, i)
    ensures |EncodeColumns(cs)| == Span(ColumnSize(i), |cs|)
  {
    hide Fits, At, EncodeColumns, DecodeColumns, ColumnSize, Span;
    ColumnsAt(seq(Span(ColumnSize(i), |cs|), _ => 0), 0, cs, i);
  }

  /** No byte of a dump is lost: the decoded columns lay out to the dump they came from. */
  lemma Reencode(raw: seq<byte>, i: TilesInfo, n: nat)
    requires Holds(raw, i, n)
    ensures EncodeColumns(Decoded(raw, i, n)) <= raw
    ensures |EncodeColumns(Decoded(raw, i, n))| == i.colSize * n
  {
    hide Fits, At, EncodeColumns, ColumnSize, Span;
    HoldsSpan(raw, i, n);
    SpanIsProduct(ColumnSize(i), n);
    DecodedColumnsFit(raw, 0, n, i);
    var cs := Decoded(raw, i, n);
    ColumnsAt(raw, 0, cs, i);
    AtSlice(raw, 0, EncodeColumns(cs));
  }

  lemma {:induction false} DecodedColumnsFit(raw: seq<byte>, p: nat, n: nat, i: TilesInfo)
    requires p + Span(ColumnSize(i), n) <= |raw|
    ensures forall c | c in DecodeColumns(raw, p, n, i) :: Fits(c, i)
    decreases n
  {
    hide DecodeCores, DecodeEdges, CoreFits, EdgeFits, CoreSize, EdgeSize;
    if n > 0 {
      FirstColumn(raw, p, n, i);
      DecodedCoresFit(raw, p, i.coreRows, i);
      DecodedEdgesFit(raw, p + CoreSpan(i), i.memRows, MemShape(i));
      DecodedEdgesFit(raw, p + CoreSpan(i) + MemSpan(i), i.shimRows, ShimShape(i));
      DecodedColumnsFit(raw, p + ColumnSize(i), n - 1, i);
    }
  }
}
