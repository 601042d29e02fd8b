/**
 The AIE status buffer (core/common/info_aie2.cpp): a packed dump of the active columns, read by
 three independent parsers (core, mem and shim tiles), each skipping what the other two read.

 The driver that writes the buffer is not part of the repository.  EncodeColumns below states the
 layout the parsers document, and is what they are proved to invert.
 */
module AieLayout {

  newtype byte = x: int | 0 <= x < 0x100
  type u16 = x: int | 0 <= x < 0x1_0000
  newtype u32 = x: int | 0 <= x < 0x1_0000_0000

  datatype TilesInfo = TilesInfo(
    colSize: nat, cols: u16,
    coreRows: u16, memRows: u16, shimRows: u16,
    coreRowStart: u16, memRowStart: u16, shimRowStart: u16,
    coreDma: u16, memDma: u16, shimDma: u16,
    coreLocks: u16, memLocks: u16, shimLocks: u16,
    coreEvents: u16, memEvents: u16, shimEvents: u16)

  datatype Dma = Dma(s2mm: u32, mm2s: u32)

  datatype CoreTile = CoreTile(
    dma: seq<Dma>, coreEvents: seq<u32>, memEvents: seq<u32>,
    status: u32, pc: u32, sp: u32, lr: u32, locks: seq<byte>)

  /** Mem and shim tiles have the same fields. */
  datatype EdgeTile = EdgeTile(dma: seq<Dma>, events: seq<u32>, locks: seq<byte>)

  datatype Column = Column(core: seq<CoreTile>, mem: seq<EdgeTile>, shim: seq<EdgeTile>)

  // ----- Sizes -----

  datatype EdgeShape = EdgeShape(dma: u16, events: u16, locks: u16)

  function MemShape(i: TilesInfo): EdgeShape { EdgeShape(i.memDma, i.memEvents, i.memLocks) }
  function ShimShape(i: TilesInfo): EdgeShape { EdgeShape(i.shimDma, i.shimEvents, i.shimLocks) }

  function EdgeSize(f: EdgeShape): nat { 8 * f.dma + 4 * f.events + f.locks }
  function CoreSize(i: TilesInfo): nat { 8 * i.coreDma + 4 * i.coreEvents * 2 + i.coreLocks + 4 * 4 }

  /** The bytes of n tiles of one size, counted one tile at a time. */
  function Span(size: nat, n: nat): nat { if n == 0 then 0 else size + Span(size, n - 1) }

  lemma {:induction false} SpanIsProduct(size: nat, n: nat)
    ensures Span(size, n) == size * n
  {
    if n > 0 {
      SpanIsProduct(size, n - 1);
      assert size * n == size + size * (n - 1);
    }
  }

  function CoreSpan(i: TilesInfo): nat { Span(CoreSize(i), i.coreRows) }
  function MemSpan(i: TilesInfo): nat { Span(EdgeSize(MemShape(i)), i.memRows) }
  function ShimSpan(i: TilesInfo): nat { Span(EdgeSize(ShimShape(i)), i.shimRows) }

  // The same as the products the parsers skip by
  function CoreBytes(i: TilesInfo): nat { CoreSize(i) * i.coreRows }
  function MemBytes(i: TilesInfo): nat { EdgeSize(MemShape(i)) * i.memRows }
  function ShimBytes(i: TilesInfo): nat { EdgeSize(ShimShape(i)) * i.shimRows }

  function ColumnSize(i: TilesInfo): nat { CoreSpan(i) + MemSpan(i) + ShimSpan(i) }

  /** aie_info_sanity_check: true when it does not throw. */
  predicate SanityCheck(i: TilesInfo) {
    i.colSize != 0 && CoreBytes(i) + ShimBytes(i) + MemBytes(i) == i.colSize
  }

  /** What the check is for: the advertised column size is the size of a column. */
  predicate Sane(i: TilesInfo) { i.colSize == ColumnSize(i) > 0 }

  lemma SpanProducts(i: TilesInfo)
    ensures CoreSpan(i) == CoreBytes(i) == Span(CoreSize(i), i.coreRows)
    ensures MemSpan(i) == MemBytes(i) == Span(EdgeSize(MemShape(i)), i.memRows)
    ensures ShimSpan(i) == ShimBytes(i) == Span(EdgeSize(ShimShape(i)), i.shimRows)
    ensures ColumnSize(i) == CoreBytes(i) + MemBytes(i) + ShimBytes(i)
  {
    SpanIsProduct(CoreSize(i), i.coreRows);
    SpanIsProduct(EdgeSize(MemShape(i)), i.memRows);
    SpanIsProduct(EdgeSize(ShimShape(i)), i.shimRows);
  }

  lemma SanityCheckIsSane(i: TilesInfo)
    ensures SanityCheck(i) <==> Sane(i)
  {
    hide CoreSpan, MemSpan, ShimSpan, CoreBytes, MemBytes, ShimBytes;
    SpanProducts(i);
  }

  // ----- Reading fields (memcpy on a little-endian host) -----

  function FromDigits(b0: byte, b1: byte, b2: byte, b3: byte): u32 {
    (b0 as int + 0x100 * (b1 as int + 0x100 * (b2 as int + 0x100 * b3 as int))) as u32
  }

  function Word(s: seq<byte>, p: nat): u32
    requires p + 4 <= |s|
  {
    FromDigits(s[p], s[p + 1], s[p + 2], s[p + 3])
  }

  function Words(s: seq<byte>, p: nat, n: nat): (ws: seq<u32>)
    requires p + 4 * n <= |s|
    ensures |ws| == n
    decreases n
  {
    if n == 0 then [] else [Word(s, p)] + Words(s, p + 4, n - 1)
  }

  function Dmas(s: seq<byte>, p: nat, n: nat): (ds: seq<Dma>)
    requires p + 8 * n <= |s|
    ensures |ds| == n
    decreases n
  {
    if n == 0 then [] else [Dma(Word(s, p), Word(s, p + 4))] + Dmas(s, p + 8, n - 1)
  }

  function DecodeCore(s: seq<byte>, p: nat, i: TilesInfo): CoreTile
    requires p + CoreSize(i) <= |s|
  {
    var p1 := p + 8 * i.coreDma;
    var p2 := p1 + 4 * i.coreEvents;
    var p3 := p2 + 4 * i.coreEvents;
    CoreTile(Dmas(s, p, i.coreDma), Words(s, p1, i.coreEvents), Words(s, p2, i.coreEvents),
             Word(s, p3), Word(s, p3 + 4), Word(s, p3 + 8), Word(s, p3 + 12),
             s[p3 + 16..p3 + 16 + i.coreLocks])
  }

  function DecodeEdge(s: seq<byte>, p: nat, f: EdgeShape): EdgeTile
    requires p + EdgeSize(f) <= |s|
  {
    var q := p + 8 * f.dma + 4 * f.events;
    EdgeTile(Dmas(s, p, f.dma), Words(s, p + 8 * f.dma, f.events), s[q..q + f.locks])
  }

  /** n items of one size, one after the other, each read by dec. */
  function DecodeAll<T>(limit: nat, p: nat, n: nat, size: nat, dec: nat --> T): (ts: seq<T>)
    requires p + Span(size, n) <= limit
    requires forall q: nat | q + size <= limit :: dec.requires(q)
    ensures |ts| == n
    decreases n
  {
    if n == 0 then [] else [dec(p)] + DecodeAll(limit, p + size, n - 1, size, dec)
  }

  function CoreReader(s: seq<byte>, i: TilesInfo): nat --> CoreTile {
    (p: nat) requires p + CoreSize(i) <= |s| => DecodeCore(s, p, i)
  }

  function EdgeReader(s: seq<byte>, f: EdgeShape): nat --> EdgeTile {
    (p: nat) requires p + EdgeSize(f) <= |s| => DecodeEdge(s, p, f)
  }

  function ColumnReader(s: seq<byte>, i: TilesInfo): nat --> Column {
    (p: nat) requires p + ColumnSize(i) <= |s| => DecodeColumn(s, p, i)
  }

  function DecodeCores(s: seq<byte>, p: nat, n: nat, i: TilesInfo): (ts: seq<CoreTile>)
    requires p + Span(CoreSize(i), n) <= |s|
    ensures |ts| == n
  {
    DecodeAll(|s|, p, n, CoreSize(i), CoreReader(s, i))
  }

  function DecodeEdges(s: seq<byte>, p: nat, n: nat, f: EdgeShape): (ts: seq<EdgeTile>)
    requires p + Span(EdgeSize(f), n) <= |s|
    ensures |ts| == n
  {
    DecodeAll(|s|, p, n, EdgeSize(f), EdgeReader(s, f))
  }

  function DecodeColumn(s: seq<byte>, p: nat, i: TilesInfo): Column
    requires p + ColumnSize(i) <= |s|
  {
    Column(DecodeCores(s, p, i.coreRows, i),
           DecodeEdges(s, p + CoreSpan(i), i.memRows, MemShape(i)),
           DecodeEdges(s, p + CoreSpan(i) + MemSpan(i), i.shimRows, ShimShape(i)))
  }

  function DecodeColumns(s: seq<byte>, p: nat, n: nat, i: TilesInfo): (cs: seq<Column>)
    requires p + Span(ColumnSize(i), n) <= |s|
    ensures |cs| == n
  {
    DecodeAll(|s|, p, n, ColumnSize(i), ColumnReader(s, i))
  }

  // ----- Where each field is read -----

  /** Least significant byte first. */
  lemma WordIsLittleEndian(s: seq<byte>, p: nat)
    requires p + 4 <= |s|
    ensures Word(s, p) as int
            == s[p] as int + 0x100 * s[p + 1] as int + 0x1_0000 * s[p + 2] as int + 0x100_0000 * s[p + 3] as int
  {
  }

  lemma {:induction false} WordsIndex(s: seq<byte>, p: nat, n: nat, k: nat)
    requires p + 4 * n <= |s| && k < n
    ensures Words(s, p, n)[k] == Word(s, p + 4 * k)
    decreases n
  {
    hide Word;
    if k > 0 {
      WordsIndex(s, p + 4, n - 1, k - 1);
      assert p + 4 + 4 * (k - 1) == p + 4 * k;
    }
  }

  lemma {:induction false} DmasIndex(s: seq<byte>, p: nat, n: nat, k: nat)
    requires p + 8 * n <= |s| && k < n
    ensures Dmas(s, p, n)[k] == Dma(Word(s, p + 8 * k), Word(s, p + 8 * k + 4))
    decreases n
  {
    hide Word;
    if k > 0 {
      DmasIndex(s, p + 8, n - 1, k - 1);
      assert p + 8 + 8 * (k - 1) == p + 8 * k;
    }
  }

  /** A core tile: DMA status pairs, core and mem events, four registers, locks. */
  lemma CoreFields(s: seq<byte>, p: nat, i: TilesInfo, k: nat)
    requires p + CoreSize(i) <= |s|
    ensures var t := DecodeCore(s, p, i); var e := p + 8 * i.coreDma;
      && |t.dma| == i.coreDma && |t.coreEvents| == |t.memEvents| == i.coreEvents && |t.locks| == i.coreLocks
      && (k < i.coreDma ==> t.dma[k] == Dma(Word(s, p + 8 * k), Word(s, p + 8 * k + 4)))
      && (k < i.coreEvents ==> t.coreEvents[k] == Word(s, e + 4 * k)
                               && t.memEvents[k] == Word(s, e + 4 * i.coreEvents + 4 * k))
      && t.status == Word(s, e + 8 * i.coreEvents) && t.pc == Word(s, e + 8 * i.coreEvents + 4)
      && t.sp == Word(s, e + 8 * i.coreEvents + 8) && t.lr == Word(s, e + 8 * i.coreEvents + 12)
      && (k < i.coreLocks ==> t.locks[k] == s[e + 8 * i.coreEvents + 16 + k])
  {
    hide Word, Words, Dmas;
    var e := p + 8 * i.coreDma;
    if k < i.coreDma {
      DmasIndex(s, p, i.coreDma, k);
    }
    if k < i.coreEvents {
      WordsIndex(s, e, i.coreEvents, k);
      WordsIndex(s, e + 4 * i.coreEvents, i.coreEvents, k);
    }
  }

  /** A mem or shim tile: DMA status pairs, events, locks. */
  lemma EdgeFields(s: seq<byte>, p: nat, f: EdgeShape, k: nat)
    requires p + EdgeSize(f) <= |s|
    ensures var t := DecodeEdge(s, p, f); var e := p + 8 * f.dma;
      && |t.dma| == f.dma && |t.events| == f.events && |t.locks| == f.locks
      && (k < f.dma ==> t.dma[k] == Dma(Word(s, p + 8 * k), Word(s, p + 8 * k + 4)))
      && (k < f.events ==> t.events[k] == Word(s, e + 4 * k))
      && (k < f.locks ==> t.locks[k] == s[e + 4 * f.events + k])
  {
    hide Word, Words, Dmas;
    if k < f.dma {
      DmasIndex(s, p, f.dma, k);
    }
    if k < f.events {
      WordsIndex(s, p + 8 * f.dma, f.events, k);
    }
  }

  lemma {:induction false} AllIndex<T>(limit: nat, p: nat, n: nat, size: nat, dec: nat --> T, k: nat)
    requires p + Span(size, n) <= limit && k < n
    requires forall q: nat | q + size <= limit :: dec.requires(q)
    ensures p + Span(size, k) + size <= limit
    ensures DecodeAll(limit, p, n, size, dec)[k] == dec(p + Span(size, k))
    decreases n
  {
    if k > 0 {
      AllIndex(limit, p + size, n - 1, size, dec, k - 1);
    }
  }

  // ----- The layout -----

  function WordBytes(w: u32): (b: seq<byte>)
    ensures |b| == 4
  {
    [(w % 0x100) as byte, (w / 0x100 % 0x100) as byte,
     (w / 0x100 / 0x100 % 0x100) as byte, (w / 0x100 / 0x100 / 0x100) as byte]
  }

  function WordsBytes(ws: seq<u32>): (b: seq<byte>)
    ensures |b| == 4 * |ws|
  {
    if ws == [] then [] else WordBytes(ws[0]) + WordsBytes(ws[1..])
  }

  function DmasBytes(ds: seq<Dma>): (b: seq<byte>)
    ensures |b| == 8 * |ds|
  {
    if ds == [] then [] else (WordBytes(ds[0].s2mm) + WordBytes(ds[0].mm2s)) + DmasBytes(ds[1..])
  }

  function EncodeCore(t: CoreTile): seq<byte> {
    DmasBytes(t.dma) + (WordsBytes(t.coreEvents) + (WordsBytes(t.memEvents)
    + (WordsBytes([t.status, t.pc, t.sp, t.lr]) + t.locks)))
  }

  function EncodeEdge(t: EdgeTile): seq<byte> {
    DmasBytes(t.dma) + (WordsBytes(t.events) + t.locks)
  }

  function EncodeAll<T>(ts: seq<T>, enc: T -> seq<byte>): seq<byte> {
    if ts == [] then [] else enc(ts[0]) + EncodeAll(ts[1..], enc)
  }

  function EncodeCores(ts: seq<CoreTile>): seq<byte> { EncodeAll(ts, EncodeCore) }
  function EncodeEdges(ts: seq<EdgeTile>): seq<byte> { EncodeAll(ts, EncodeEdge) }

  function EncodeColumn(c: Column): seq<byte> {
    EncodeCores(c.core) + (EncodeEdges(c.mem) + EncodeEdges(c.shim))
  }

  function EncodeColumns(cs: seq<Column>): seq<byte> { EncodeAll(cs, EncodeColumn) }

  // ----- Shapes: the resize calls of aie_tiles_status's constructor -----

  predicate EdgeFits(t: EdgeTile, f: EdgeShape) {
    |t.dma| == f.dma && |t.events| == f.events && |t.locks| == f.locks
  }

  predicate CoreFits(t: CoreTile, i: TilesInfo) {
    && |t.dma| == i.coreDma && |t.coreEvents| == i.coreEvents && |t.memEvents| == i.coreEvents
    && |t.locks| == i.coreLocks
  }

  predicate Fits(c: Column, i: TilesInfo) {
    && |c.core| == i.coreRows && (forall t | t in c.core :: CoreFits(t, i))
    && |c.mem| == i.memRows && (forall t | t in c.mem :: EdgeFits(t, MemShape(i)))
    && |c.shim| == i.shimRows && (forall t | t in c.shim :: EdgeFits(t, ShimShape(i)))
  }

  // ----- Decoding inverts the layout, both ways -----

  /** Buffer s holds the bytes b at position p. */
  predicate At(s: seq<byte>, p: nat, b: seq<byte>)
    decreases |b|
  {
    p + |b| <= |s| && (b == [] || (s[p] == b[0] && At(s, p + 1, b[1..])))
  }

  lemma {:induction false} AtSlice(s: seq<byte>, p: nat, b: seq<byte>)
    ensures At(s, p, b) <==> p + |b| <= |s| && s[p..p + |b|] == b
    decreases |b|
  {
    if b != [] && p < |s| {
      AtSlice(s, p + 1, b[1..]);
      if p + |b| <= |s| {
        assert s[p..p + |b|] == [s[p]] + s[p + 1..p + |b|];
        assert b == [b[0]] + b[1..];
      }
    }
  }

  lemma {:induction false} AtConcat(s: seq<byte>, p: nat, a: seq<byte>, b: seq<byte>)
    ensures At(s, p, a + b) <==> At(s, p, a) && At(s, p + |a|, b)
    decreases |a|
  {
    if a == [] {
      assert a + b == b;
    } else {
      assert (a + b)[1..] == a[1..] + b;
      AtConcat(s, p + 1, a[1..], b);
    }
  }

  lemma LowDigit(lo: nat, hi: nat, w: nat)
    requires lo < 0x100
    ensures w == lo + 0x100 * hi <==> lo == w % 0x100 && hi == w / 0x100
  {
  }

  lemma Digits(b0: byte, b1: byte, b2: byte, b3: byte, w: u32)
    ensures w == FromDigits(b0, b1, b2, b3) <==> WordBytes(w) == [b0, b1, b2, b3]
  {
    var n: nat, d0: nat, d1: nat, d2: nat, d3: nat := w as int, b0 as int, b1 as int, b2 as int, b3 as int;
    var n1: nat := n / 0x100;
    var n2: nat := n1 / 0x100;
    LowDigit(d0, d1 + 0x100 * (d2 + 0x100 * d3), n);
    LowDigit(d1, d2 + 0x100 * d3, n1);
    LowDigit(d2, d3, n2);
    assert WordBytes(w) == [(n % 0x100) as byte, (n1 % 0x100) as byte, (n2 % 0x100) as byte, (n2 / 0x100) as byte];
  }

  lemma WordAt(s: seq<byte>, p: nat, w: u32)
    requires p + 4 <= |s|
    ensures At(s, p, WordBytes(w)) <==> Word(s, p) == w
  {
    Digits(s[p], s[p + 1], s[p + 2], s[p + 3], w);
    AtSlice(s, p, WordBytes(w));
    assert s[p..p + 4] == [s[p], s[p + 1], s[p + 2], s[p + 3]];
  }

  lemma {:induction false} WordsAt(s: seq<byte>, p: nat, ws: seq<u32>)
    requires p + 4 * |ws| <= |s|
    ensures At(s, p, WordsBytes(ws)) <==> Words(s, p, |ws|) == ws
    decreases |ws|
  {
    if ws != [] {
      AtConcat(s, p, WordBytes(ws[0]), WordsBytes(ws[1..]));
      WordAt(s, p, ws[0]);
      WordsAt(s, p + 4, ws[1..]);
      assert ws == [ws[0]] + ws[1..];
    }
  }

  lemma {:induction false} DmasAt(s: seq<byte>, p: nat, ds: seq<Dma>)
    requires p + 8 * |ds| <= |s|
    ensures At(s, p, DmasBytes(ds)) <==> Dmas(s, p, |ds|) == ds
    decreases |ds|
  {
    if ds != [] {
      var d := ds[0];
      AtConcat(s, p, WordBytes(d.s2mm) + WordBytes(d.mm2s), DmasBytes(ds[1..]));
      AtConcat(s, p, WordBytes(d.s2mm), WordBytes(d.mm2s));
      WordAt(s, p, d.s2mm);
      WordAt(s, p + 4, d.mm2s);
      DmasAt(s, p + 8, ds[1..]);
      assert ds == [d] + ds[1..];
    }
  }

  lemma Concat3At(s: seq<byte>, p: nat, a: seq<byte>, b: seq<byte>, c: seq<byte>)
    ensures At(s, p, a + (b + c)) <==> At(s, p, a) && At(s, p + |a|, b) && At(s, p + |a| + |b|, c)
  {
    AtConcat(s, p, a, b + c);
    AtConcat(s, p + |a|, b, c);
  }

  /** Reads the four registers of a core tile as words. */
  lemma RegistersAt(s: seq<byte>, p: nat, w0: u32, w1: u32, w2: u32, w3: u32)
    requires p + 16 <= |s|
    ensures At(s, p, WordsBytes([w0, w1, w2, w3])) <==>
            Word(s, p) == w0 && Word(s, p + 4) == w1 && Word(s, p + 8) == w2 && Word(s, p + 12) == w3
  {
    WordsAt(s, p, [w0, w1, w2, w3]);
    assert Words(s, p, 4) == [Word(s, p)] + Words(s, p + 4, 3);
    assert Words(s, p + 4, 3) == [Word(s, p + 4)] + Words(s, p + 8, 2);
    assert Words(s, p + 8, 2) == [Word(s, p + 8)] + Words(s, p + 12, 1);
    assert Words(s, p, 4) == [Word(s, p), Word(s, p + 4), Word(s, p + 8), Word(s, p + 12)];
  }

  lemma {:induction false} CoreParts(
    s: seq<byte>, p: nat, p1: nat, p2: nat, p3: nat, p4: nat,
    a: seq<byte>, b: seq<byte>, c: seq<byte>, d: seq<byte>, x: CoreTile, t: CoreTile)
    requires At(s, p, a) <==> x.dma == t.dma
    requires p1 == p + |a| && p2 == p1 + |b| && p3 == p2 + |c| && p4 == p3 + |d|
    requires At(s, p1, b) <==> x.coreEvents == t.coreEvents
    requires At(s, p2, c) <==> x.memEvents == t.memEvents
    requires At(s, p3, d) <==> x.status == t.status && x.pc == t.pc && x.sp == t.sp && x.lr == t.lr
    requires At(s, p4, t.locks) <==> x.locks == t.locks
    ensures At(s, p, a + (b + (c + (d + t.locks)))) <==> x == t
  {
    hide At;
    AtConcat(s, p, a, b + (c + (d + t.locks)));
    Concat3At(s, p + |a|, b, c, d + t.locks);
    AtConcat(s, p + |a| + |b| + |c|, d, t.locks);
  }

  lemma CoreAt(s: seq<byte>, p: nat, t: CoreTile, i: TilesInfo)
    requires p + CoreSize(i) <= |s| && CoreFits(t, i)
    ensures |EncodeCore(t)| == CoreSize(i)
    ensures At(s, p, EncodeCore(t)) <==> DecodeCore(s, p, i) == t
  {
    hide At, Word, Words, Dmas, WordsBytes, DmasBytes;
    var p1 := p + 8 * i.coreDma;
    var p2 := p1 + 4 * i.coreEvents;
    var p3 := p2 + 4 * i.coreEvents;
    DmasAt(s, p, t.dma);
    WordsAt(s, p1, t.coreEvents);
    WordsAt(s, p2, t.memEvents);
    RegistersAt(s, p3, t.status, t.pc, t.sp, t.lr);
    AtSlice(s, p3 + 16, t.locks);
    CoreParts(s, p, p1, p2, p3, p3 + 16, DmasBytes(t.dma), WordsBytes(t.coreEvents), WordsBytes(t.memEvents),
              WordsBytes([t.status, t.pc, t.sp, t.lr]), DecodeCore(s, p, i), t);
  }

  lemma {:induction false} EdgeParts(
    s: seq<byte>, p: nat, q: nat, r: nat, a: seq<byte>, b: seq<byte>, x: EdgeTile, t: EdgeTile)
    requires q == p + |a| && r == q + |b|
    requires At(s, p, a) <==> x.dma == t.dma
    requires At(s, q, b) <==> x.events == t.events
    requires At(s, r, t.locks) <==> x.locks == t.locks
    ensures At(s, p, a + (b + t.locks)) <==> x == t
  {
    hide At;
    Concat3At(s, p, a, b, t.locks);
  }

  lemma {:induction false} EdgeAt(s: seq<byte>, p: nat, t: EdgeTile, f: EdgeShape)
    requires p + EdgeSize(f) <= |s| && EdgeFits(t, f)
    ensures |EncodeEdge(t)| == EdgeSize(f)
    ensures At(s, p, EncodeEdge(t)) <==> DecodeEdge(s, p, f) == t
  {
    hide At, Words, Dmas, WordsBytes, DmasBytes;
    DmasAt(s, p, t.dma);
    var q := p + 8 * f.dma;
    var r := q + 4 * f.events;
    WordsAt(s, q, t.events);
    AtSlice(s, r, t.locks);
    EdgeParts(s, p, q, r, DmasBytes(t.dma), WordsBytes(t.events), DecodeEdge(s, p, f), t);
  }

  lemma {:induction false} AllAt<T>(s: seq<byte>, p: nat, ts: seq<T>, size: nat, enc: T -> seq<byte>, dec: nat --> T)
    requires p + Span(size, |ts|) <= |s|
    requires forall q: nat | q + size <= |s| :: dec.requires(q)
    requires forall t | t in ts :: |enc(t)| == size
    requires forall t, q: nat | t in ts && q + size <= |s| :: At(s, q, enc(t)) <==> dec(q) == t
    ensures |EncodeAll(ts, enc)| == Span(size, |ts|)
    ensures At(s, p, EncodeAll(ts, enc)) <==> DecodeAll(|s|, p, |ts|, size, dec) == ts
    decreases |ts|
  {
    if ts != [] {
      AtConcat(s, p, enc(ts[0]), EncodeAll(ts[1..], enc));
      AllAt(s, p + size, ts[1..], size, enc, dec);
      assert ts == [ts[0]] + ts[1..];
    }
  }

  lemma {:induction false} CoresAt(s: seq<byte>, p: nat, ts: seq<CoreTile>, i: TilesInfo)
    requires p + Span(CoreSize(i), |ts|) <= |s| && forall t | t in ts :: CoreFits(t, i)
    ensures |EncodeCores(ts)| == Span(CoreSize(i), |ts|)
    ensures At(s, p, EncodeCores(ts)) <==> DecodeCores(s, p, |ts|, i) == ts
  {
    forall t | t in ts ensures |EncodeCore(t)| == CoreSize(i) {}
    forall t, q: nat | t in ts && q + CoreSize(i) <= |s|
      ensures At(s, q, EncodeCore(t)) <==> CoreReader(s, i)(q) == t
    {
      CoreAt(s, q, t, i);
    }
    AllAt(s, p, ts, CoreSize(i), EncodeCore, CoreReader(s, i));
  }

  lemma {:induction false} EdgesAt(s: seq<byte>, p: nat, ts: seq<EdgeTile>, f: EdgeShape)
    requires p + Span(EdgeSize(f), |ts|) <= |s| && forall t | t in ts :: EdgeFits(t, f)
    ensures |EncodeEdges(ts)| == Span(EdgeSize(f), |ts|)
    ensures At(s, p, EncodeEdges(ts)) <==> DecodeEdges(s, p, |ts|, f) == ts
  {
    forall t | t in ts ensures |EncodeEdge(t)| == EdgeSize(f) {}
    forall t, q: nat | t in ts && q + EdgeSize(f) <= |s|
      ensures At(s, q, EncodeEdge(t)) <==> EdgeReader(s, f)(q) == t
    {
      EdgeAt(s, q, t, f);
    }
    AllAt(s, p, ts, EdgeSize(f), EncodeEdge, EdgeReader(s, f));
  }

  lemma {:induction false} ColumnParts(
    s: seq<byte>, p: nat, q: nat, r: nat, a: seq<byte>, b: seq<byte>, d: seq<byte>, x: Column, c: Column)
    requires q == p + |a| && r == q + |b|
    requires At(s, p, a) <==> x.core == c.core
    requires At(s, q, b) <==> x.mem == c.mem
    requires At(s, r, d) <==> x.shim == c.shim
    ensures At(s, p, a + (b + d)) <==> x == c
  {
    hide At;
    Concat3At(s, p, a, b, d);
  }

  lemma ColumnAt(s: seq<byte>, p: nat, c: Column, i: TilesInfo)
    requires p + ColumnSize(i) <= |s| && Fits(c, i)
    ensures |EncodeColumn(c)| == ColumnSize(i)
    ensures At(s, p, EncodeColumn(c)) <==> DecodeColumn(s, p, i) == c
  {
    hide At, Span, DecodeAll, EncodeAll, DecodeCores, DecodeEdges, EncodeCores, EncodeEdges, CoreSize, EdgeSize;
    var q := p + CoreSpan(i);
    var r := q + MemSpan(i);
    CoresAt(s, p, c.core, i);
    EdgesAt(s, q, c.mem, MemShape(i));
    EdgesAt(s, r, c.shim, ShimShape(i));
    var x := DecodeColumn(s, p, i);
    var a, b, d := EncodeCores(c.core), EncodeEdges(c.mem), EncodeEdges(c.shim);
    ColumnParts(s, p, q, r, a, b, d, x, c);
    assert EncodeColumn(c) == a + (b + d);
  }

  /** The columns decoded at p are cs exactly when the bytes at p are the encoding of cs. */
  lemma ColumnsAt(s: seq<byte>, p: nat, cs: seq<Column>, i: TilesInfo)
    requires p + Span(ColumnSize(i), |cs|) <= |s| && forall c | c in cs :: Fits(c, i)
    ensures |EncodeColumns(cs)| == Span(ColumnSize(i), |cs|)
    ensures At(s, p, EncodeColumns(cs)) <==> DecodeColumns(s, p, |cs|, i) == cs
  {
    forall c | c in cs ensures |EncodeColumn(c)| == ColumnSize(i) {
      ColumnAt(seq(ColumnSize(i), _ => 0), 0, c, i);
    }
    forall c, q: nat | c in cs && q + ColumnSize(i) <= |s|
      ensures At(s, q, EncodeColumn(c)) <==> ColumnReader(s, i)(q) == c
    {
      ColumnAt(s, q, c, i);
    }
    AllAt(s, p, cs, ColumnSize(i), EncodeColumn, ColumnReader(s, i));
  }
}
