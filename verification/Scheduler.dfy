/**
 The packets scheduler initialisation builds (core/common/scheduler.cpp), and the naming loop that
 later maps soft compute units back to kernels (core/common/info_memory.cpp).
 */
module Scheduler {
  import opened Common
  import opened Bits
  import opened ErtPacket
  import ComputeUnits
  import Sorting

  type u32 = x: int | 0 <= x < U32

  // ----- Writing header bit fields -----

  const STATE_NEW := 1
  const TYPE_CTRL := 2

  /** A header with the given fields; a value too wide for its field is cut off, as in C. */
  function Header(state: nat, count: nat, opcode: nat, typ: nat): nat {
    state % 0x10 + count % 0x800 * 0x1000 + opcode % 0x20 * 0x80_0000 + typ % 0x10 * 0x1000_0000
  }

  lemma LowFields(s: nat, x: nat)
    requires s < 0x10
    ensures var h := s + 0x1000 * x;
      && h % 0x10 == s && h / 0x10 % 2 == 0 && h / 0x400 % 4 == 0 && h / 0x1000 == x
      && h / 0x80_0000 == x / 0x800 && h / 0x1000_0000 == x / 0x1_0000
  {
    var h := s + 0x1000 * x;
    assert h / 0x10 == 0x100 * x && h / 0x400 == 4 * x;
  }

  lemma HighFields(c: nat, o: nat, t: nat)
    requires c < 0x800 && o < 0x20 && t < 0x10
    ensures var x := c + 0x800 * (o + 0x20 * t);
      x % 0x800 == c && x / 0x800 % 0x20 == o && x / 0x1_0000 == t && x < 0x10_0000
  {
    var x := c + 0x800 * (o + 0x20 * t);
    assert x / 0x800 == o + 0x20 * t;
  }

  lemma HeaderFields(state: nat, count: nat, opcode: nat, typ: nat)
    ensures var h := Header(state, count, opcode, typ);
      && h % 0x10 == state % 0x10 && StatEnabled(h) == 0 && ExtraCuMasks(h) == 0
      && Count(h) == count % 0x800 && Opcode(h) == opcode % 0x20 && h / 0x1000_0000 == typ % 0x10 && h < U32
  {
    var s, c, o, t := state % 0x10, count % 0x800, opcode % 0x20, typ % 0x10;
    var x := c + 0x800 * (o + 0x20 * t);
    assert Header(state, count, opcode, typ) == s + 0x1000 * x;
    LowFields(s, x);
    HighFields(c, o, t);
  }

  /** Words of the mapped buffer, zero beyond it. */
  function Words(w: seq<nat>): Memory { (k: nat) => if k < |w| then w[k] else 0 }

  /** 0x1000 bytes */
  const BUFFER_WORDS: nat := 1024

  /** The switches init sets; the other feature bits stay 0. */
  datatype Features = Features(
    ert: bool, polling: bool, cuDma: bool, cuIsr: bool, cqInt: bool, dataflow: bool, rwShared: bool)

  function FeatureWord(f: Features): nat {
    FromBits([f.ert, f.polling, f.cuDma, f.cuIsr, f.cqInt, false, f.dataflow, f.rwShared])
  }

  /** The configure command as written: header, slot size, CU count, shift, base, features, CU addresses. */
  function Configure(slotSize: nat, baseOffset: nat, f: Features, cus: seq<nat>): seq<nat> {
    [Header(STATE_NEW, 5 + |cus|, CONFIGURE, TYPE_CTRL),
     slotSize % U32, |cus| % U32, 16, baseOffset % U32, FeatureWord(f)]
    + seq(|cus|, k requires 0 <= k < |cus| => cus[k] % U32)
  }

  predicate HasFeatures(w: nat, f: Features) {
    && Bit(w, 0) == f.ert && Bit(w, 1) == f.polling && Bit(w, 2) == f.cuDma && Bit(w, 3) == f.cuIsr
    && Bit(w, 4) == f.cqInt && !Bit(w, 5) && Bit(w, 6) == f.dataflow && Bit(w, 7) == f.rwShared && w < 0x100
  }

  /** The fields of struct ert_configure_cmd, at their words and bits. */
  ghost predicate ConfigureFields(w: seq<nat>, slotSize: nat, baseOffset: nat, f: Features, cus: seq<nat>) {
    && |w| >= 6 + |cus|
    && w[0] % 0x10 == 1 && w[0] / 0x1000 % 0x800 == (5 + |cus|) % 0x800
    && w[0] / 0x80_0000 % 0x20 == 2 && w[0] / 0x1000_0000 == 2
    && w[1] == slotSize % U32
    && w[2] == |cus| % U32
    && w[3] == 16
    && w[4] == baseOffset % U32
    && HasFeatures(w[5], f)
    && forall k | 0 <= k < |cus| :: w[6 + k] == cus[k] % U32
  }

  lemma FeatureBits(f: Features)
    ensures HasFeatures(FeatureWord(f), f)
  {
    hide Bit, FromBits;
    var bs := [f.ert, f.polling, f.cuDma, f.cuIsr, f.cqInt, false, f.dataflow, f.rwShared];
    forall k: nat | k < 8 ensures Bit(FeatureWord(f), k) == bs[k] {
      FromBitsBit(bs, k);
    }
    FromBitsBound(bs);
    EightBits();
  }

  lemma ConfigureHasFields(slotSize: nat, baseOffset: nat, f: Features, cus: seq<nat>)
    ensures ConfigureFields(Configure(slotSize, baseOffset, f, cus), slotSize, baseOffset, f, cus)
  {
    hide Header, FeatureWord, HasFeatures;
    HeaderFields(STATE_NEW, 5 + |cus|, CONFIGURE, TYPE_CTRL);
    FeatureBits(f);
  }

  method FillConfigure(w: array<nat>, slotSize: nat, baseOffset: nat, f: Features, cus: seq<nat>)
    requires 6 + |cus| <= w.Length
    requires forall k | 0 <= k < w.Length :: w[k] == 0
    modifies w
    ensures w[..6 + |cus|] == Configure(slotSize, baseOffset, f, cus)
    ensures ConfigureFields(w[..], slotSize, baseOffset, f, cus)
    ensures forall k | 6 + |cus| <= k < w.Length :: w[k] == 0
  {
    hide Header, FeatureWord, ConfigureFields;
    w[0] := Header(STATE_NEW, 0, CONFIGURE, TYPE_CTRL);
    w[1] := slotSize % U32;
    w[2] := |cus| % U32;
    w[3] := 16;
    w[4] := baseOffset % U32;
    w[5] := FeatureWord(f);
    for k := 0 to |cus|
      invariant forall j | 0 <= j < k :: w[6 + j] == cus[j] % U32
      invariant w[1] == slotSize % U32 && w[2] == |cus| % U32 && w[3] == 16
      invariant w[4] == baseOffset % U32 && w[5] == FeatureWord(f)
      invariant forall j | 6 + k <= j < w.Length :: w[j] == 0
    {
      w[6 + k] := cus[k] % U32;
    }
    w[0] := Header(STATE_NEW, 5 + |cus|, CONFIGURE, TYPE_CTRL);
    assert w[..6 + |cus|] == Configure(slotSize, baseOffset, f, cus);
    ConfigureHasFields(slotSize, baseOffset, f, cus);
    FieldsOfLonger(Configure(slotSize, baseOffset, f, cus), w[..], slotSize, baseOffset, f, cus);
  }

  lemma FieldsOfLonger(p: seq<nat>, w: seq<nat>, slotSize: nat, baseOffset: nat, f: Features, cus: seq<nat>)
    requires ConfigureFields(p, slotSize, baseOffset, f, cus) && p <= w
    ensures ConfigureFields(w, slotSize, baseOffset, f, cus)
  {
    hide HasFeatures;
  }

  /** The firmware check accepts the packet exactly when the payload length fits the 11-bit count. */
  lemma ConfigureAccepted(slotSize: nat, baseOffset: nat, f: Features, cus: seq<nat>)
    ensures var m := Words(Configure(slotSize, baseOffset, f, cus));
      && (ValidOpcode(m) <==> (5 + |cus|) % U32 < 0x800)
      && (5 + |cus| < 0x800 ==> PacketSizeBytes(m) == 4 * |Configure(slotSize, baseOffset, f, cus)|)
  {
    hide Header, Count, Opcode, ExtraCuMasks, FeatureWord, ValidOpcode;
    HeaderFields(STATE_NEW, 5 + |cus|, CONFIGURE, TYPE_CTRL);
    var m := Words(Configure(slotSize, baseOffset, f, cus));
    assert m(0) == Header(STATE_NEW, 5 + |cus|, CONFIGURE, TYPE_CTRL) && m(2) == |cus| % U32;
    AcceptanceByOpcode(m);
    AddMod32(|cus|, 5);
    FitsCount(5 + |cus|);
  }

  lemma FitsCount(n: nat)
    ensures n % 0x800 >= n % U32 <==> n % U32 < 0x800
  {
    assert n % U32 % 0x800 == n % 0x800;
  }

  /** What the 4096-byte buffer holds, and that this is always accepted. */
  lemma ConfigureInBuffer(slotSize: nat, baseOffset: nat, f: Features, cus: seq<nat>)
    ensures var p := Configure(slotSize, baseOffset, f, cus);
      && (|p| <= BUFFER_WORDS <==> |cus| <= 1018)
      && (|p| <= BUFFER_WORDS ==> ValidOpcode(Words(p)))
  {
    hide ValidOpcode, Words, FeatureWord, Header;
    ConfigureAccepted(slotSize, baseOffset, f, cus);
  }

  lemma MaskWord(x: nat)
    ensures ComputeUnits.Mask(x % U32) == ComputeUnits.Mask(x) % U32
  {
  }

  /**
   The packet agrees with the list used for lookups: with its low byte cleared, word 6 + k is entry k
   of the plain list modulo 2^32, likewise cleared, which changes nothing where addresses are
   multiples of 256.
   */
  lemma ConfigureAgrees(slotSize: nat, baseOffset: nat, f: Features, layout: seq<ComputeUnits.Ip>,
                        sort: seq<ComputeUnits.Ip> -> seq<ComputeUnits.Ip>,
                        maxCtx: ComputeUnits.Ip -> ComputeUnits.Context, k: nat)
    requires ComputeUnits.IsIntrIdSort(sort)
    requires k < |ComputeUnits.Cus(layout, sort, maxCtx, false)|
    ensures var p := Configure(slotSize, baseOffset, f, ComputeUnits.Cus(layout, sort, maxCtx, true));
      var plain := ComputeUnits.Cus(layout, sort, maxCtx, false);
      && |p| == 6 + |plain|
      && ComputeUnits.Mask(p[6 + k]) == ComputeUnits.Mask(plain[k]) % U32
      && ((forall ip | ip in layout && ComputeUnits.IsValidCu(ip) :: ComputeUnits.Aligned(ip)) ==>
            ComputeUnits.Mask(p[6 + k]) == plain[k] % U32)
  {
    hide ComputeUnits.Cus, ComputeUnits.Mask, ComputeUnits.IsIntrIdSort, Header, Sorting.Map;
    ComputeUnits.EncodedListAgrees(layout, sort, maxCtx);
    var enc, plain := ComputeUnits.Cus(layout, sort, maxCtx, true), ComputeUnits.Cus(layout, sort, maxCtx, false);
    assert |Sorting.Map(enc, ComputeUnits.Mask)| == |Sorting.Map(plain, ComputeUnits.Mask)|;
    assert Sorting.Map(enc, ComputeUnits.Mask)[k] == Sorting.Map(plain, ComputeUnits.Mask)[k];
    MaskWord(enc[k]);
  }

  // ----- Soft-kernel image table -----

  datatype SoftKernel = SoftKernel(symbol: string, ninst: u32)

  datatype SkImage = SkImage(startCuidx: nat, numCus: nat, name: string)

  function Ninst(sk: SoftKernel): nat { sk.ninst }

  function Total(sks: seq<SoftKernel>): nat { Sum(sks, Ninst) }

  /** The first instance index of kernel k: the instances of the kernels before it. */
  function Start(sks: seq<SoftKernel>, k: nat): nat
    requires k <= |sks|
  {
    Total(sks[..k])
  }

  lemma StartStep(sks: seq<SoftKernel>, k: nat)
    requires k < |sks|
    ensures Start(sks, k + 1) == Start(sks, k) + sks[k].ninst <= Total(sks)
  {
    assert sks[..k + 1] == sks[..k] + [sks[k]];
    SumSnoc(sks[..k], sks[k], Ninst);
    assert sks == sks[..k + 1] + sks[k + 1..];
    SumConcat(sks[..k + 1], sks[k + 1..], Ninst);
  }

  /** The image table init fills; the symbol is cut to 19 bytes. */
  predicate IsImage(im: SkImage, sks: seq<SoftKernel>, k: nat)
    requires k < |sks|
  {
    && im.startCuidx == Start(sks, k) % U32
    && im.numCus == sks[k].ninst
    && im.name == (if |sks[k].symbol| <= 19 then sks[k].symbol else sks[k].symbol[..19])
  }

  method FillImages(image: array<SkImage>, sks: seq<SoftKernel>)
    requires |sks| <= image.Length
    modifies image
    ensures forall k: nat | k < |sks| :: IsImage(image[k], sks, k)
    ensures forall k: nat | k < |sks| :: image[k].numCus == sks[k].ninst && image[k].name <= sks[k].symbol
    ensures forall k: nat | k < |sks| :: |image[k].name| == Min(19, |sks[k].symbol|)
    ensures forall k: nat | k < |sks| :: image[k].startCuidx == Sum(sks[..k], Ninst) % U32
    ensures forall k | |sks| <= k < image.Length :: image[k] == old(image[k])
  {
    var startCuidx, imgIdx := 0, 0;
    assert sks[..0] == [];
    while imgIdx < |sks|
      invariant imgIdx <= |sks| && startCuidx == Start(sks, imgIdx) % U32
      invariant forall k: nat | k < imgIdx :: IsImage(image[k], sks, k)
      invariant forall k | imgIdx <= k < image.Length :: image[k] == old(image[k])
    {
      var sk := sks[imgIdx];
      StartStep(sks, imgIdx);
      image[imgIdx] := SkImage(startCuidx, sk.ninst, if |sk.symbol| <= 19 then sk.symbol else sk.symbol[..19]);
      AddMod32(Start(sks, imgIdx), sk.ninst);
      startCuidx := (startCuidx + sk.ninst) % U32;
      imgIdx := imgIdx + 1;
    }
  }

  /** The first words of the configure command for n images: the count is taken from the stored number. */
  function SkHeader(n: nat): seq<nat> {
    [Header(STATE_NEW, n % U32 * 28 / 4 + 1, SK_CONFIG, TYPE_CTRL), n % U32]
  }

  /** It is accepted exactly when its payload fits the 11-bit count, as all that fit the buffer do. */
  lemma SkConfigAccepted(n: nat)
    ensures var h := SkHeader(n)[0];
      && h % 0x10 == 1 && h / 0x1000 % 0x800 == (7 * (n % U32) + 1) % 0x800
      && h / 0x80_0000 % 0x20 == 8 && h / 0x1000_0000 == 2
    ensures ValidOpcode(Words(SkHeader(n))) <==> 7 * (n % U32) + 1 < 0x800
    ensures 2 + 7 * n <= BUFFER_WORDS <==> n <= 146
    ensures n <= 146 ==> ValidOpcode(Words(SkHeader(n)))
  {
    hide Header;
    HeaderFields(STATE_NEW, n % U32 * 28 / 4 + 1, SK_CONFIG, TYPE_CTRL);
    var m := Words(SkHeader(n));
    assert m(0) == Header(STATE_NEW, n % U32 * 28 / 4 + 1, SK_CONFIG, TYPE_CTRL) && m(1) == n % U32;
    assert n % U32 * 28 / 4 == 7 * (n % U32);
    hide Count, Opcode, ExtraCuMasks;
  }

  // ----- The naming loop, and that it inverts the ranges -----

  /** A soft CU's name: kernel k's instance i, or the driver's own name. */
  datatype ScuName = Instance(kernel: nat, inst: nat) | DriverName

  /** The entries named after a kernel: for none, the 32-bit counter has to come round to 0 again. */
  function Turns(ninst: u32): nat { if ninst == 0 then U32 else ninst }

  /** The kernel and instance the naming loop gives entry j. */
  function Locate(sks: seq<SoftKernel>, j: nat): (name: ScuName)
    ensures name.Instance? ==> name.kernel < |sks|
  {
    if sks == [] then DriverName
    else if j < Turns(sks[0].ninst) then Instance(0, j)
    else Shift(1, Locate(sks[1..], j - Turns(sks[0].ninst)))
  }

  function Shift(k: nat, name: ScuName): ScuName {
    if name.Instance? then Instance(k + name.kernel, name.inst) else name
  }

  /** From entry j on, the names are those of kernel psk's instances from num on. */
  ghost predicate Follows(sks: seq<SoftKernel>, j: nat, psk: nat, num: nat)
    requires psk <= |sks|
  {
    forall x: nat | x >= j :: Locate(sks, x) == Shift(psk, Locate(sks[psk..], num + (x - j)))
  }

  lemma TurnsEnd(num: nat, ninst: u32)
    requires num < Turns(ninst)
    ensures (num + 1) % U32 == ninst <==> num + 1 == Turns(ninst)
    ensures (num + 1) % U32 != ninst ==> (num + 1) % U32 == num + 1
  {
  }

  lemma NextKernel(sks: seq<SoftKernel>, j: nat, psk: nat, num: nat)
    requires psk < |sks| && Follows(sks, j, psk, num) && num + 1 == Turns(sks[psk].ninst)
    ensures Follows(sks, j + 1, psk + 1, 0)
  {
    hide Turns;
    assert sks[psk..][1..] == sks[psk + 1..];
    forall x: nat | x >= j + 1 ensures Locate(sks, x) == Shift(psk + 1, Locate(sks[psk + 1..], 0 + (x - (j + 1)))) {
      assert Locate(sks, x) == Shift(psk, Locate(sks[psk..], num + (x - j)));
      assert Locate(sks[psk..], num + (x - j)) == Shift(1, Locate(sks[psk + 1..], x - (j + 1)));
    }
  }

  lemma NextInstance(sks: seq<SoftKernel>, j: nat, psk: nat, num: nat)
    requires psk <= |sks| && Follows(sks, j, psk, num)
    ensures Follows(sks, j + 1, psk, num + 1)
  {
    hide Locate;
    forall x: nat | x >= j + 1 ensures Locate(sks, x) == Shift(psk, Locate(sks[psk..], num + 1 + (x - (j + 1)))) {
      assert Locate(sks, x) == Shift(psk, Locate(sks[psk..], num + (x - j)));
      assert num + (x - j) == num + 1 + (x - (j + 1));
    }
  }

  lemma ThisInstance(sks: seq<SoftKernel>, j: nat, psk: nat, num: nat)
    requires psk <= |sks| && Follows(sks, j, psk, num) && (psk < |sks| ==> num < Turns(sks[psk].ninst))
    ensures Locate(sks, j) == if psk < |sks| then Instance(psk, num) else DriverName
  {
    hide Turns;
    assert Locate(sks, j) == Shift(psk, Locate(sks[psk..], num + (j - j)));
  }

  function Decimal(n: nat): string {
    if n < 10 then [Digit(n)] else Decimal(n / 10) + [Digit(n % 10)]
  }

  function Digit(d: nat): char
    requires d < 10
  {
    "0123456789"[d]
  }

  /** The name as shown; a soft CU without a kernel shows the driver's name for it. */
  function Text(sks: seq<SoftKernel>, name: ScuName, driver: string): string
    requires name.Instance? ==> name.kernel < |sks|
  {
    match name
    case DriverName => driver
    case Instance(k, i) => InstanceText(sks[k].symbol, i)
  }

  function InstanceText(symbol: string, inst: nat): string { symbol + ":" + symbol + "_" + Decimal(inst) }

  lemma AllFollow(sks: seq<SoftKernel>)
    ensures Follows(sks, 0, 0, 0)
  {
    assert sks[0..] == sks;
  }

  /** Behind the last kernel the counter does not matter. */
  lemma NoneFollow(sks: seq<SoftKernel>, j: nat, num: nat)
    requires Follows(sks, j, |sks|, num)
    ensures Follows(sks, j + 1, |sks|, num)
  {
    forall x: nat | x >= j + 1 ensures Locate(sks, x) == Shift(|sks|, Locate(sks[|sks|..], num + (x - (j + 1)))) {
      assert Locate(sks, x) == Shift(|sks|, Locate(sks[|sks|..], num + (x - j)));
    }
  }

  method NameScus(sks: seq<SoftKernel>, scuStats: seq<string>) returns (names: seq<string>)
    ensures |names| == |scuStats|
    ensures forall j: nat | j < |scuStats| :: names[j] == Text(sks, Locate(sks, j), scuStats[j])
  {
    hide InstanceText;
    names := [];
    hide Locate, Follows;
    var pskInst: nat, numScu: nat := 0, 0;
    AllFollow(sks);
    for j := 0 to |scuStats|
      invariant |names| == j && forall i: nat | i < j :: names[i] == Text(sks, Locate(sks, i), scuStats[i])
      invariant pskInst <= |sks| && Follows(sks, j, pskInst, numScu)
      invariant pskInst < |sks| ==> numScu < Turns(sks[pskInst].ninst)
    {
      ThisInstance(sks, j, pskInst, numScu);
      NextInstance(sks, j, pskInst, numScu);
      if pskInst >= |sks| {
        NoneFollow(sks, j, numScu);
        names := names + [scuStats[j]];
      } else {
        TurnsEnd(numScu, sks[pskInst].ninst);
        if numScu + 1 == Turns(sks[pskInst].ninst) {
          NextKernel(sks, j, pskInst, numScu);
        }
        names := names + [InstanceText(sks[pskInst].symbol, numScu)];
        numScu := (numScu + 1) % U32;
        if numScu == sks[pskInst].ninst {
          numScu := 0;
          pskInst := pskInst + 1;
        }
      }
    }
  }

  /** The number a string of decimal digits stands for. */
  function Value(s: string): int {
    if s == [] then 0 else 10 * Value(s[..|s| - 1]) + (s[|s| - 1] as int - '0' as int)
  }

  /** The decimal string stands for the number, without a leading zero. */
  lemma {:induction false} DecimalValue(n: nat)
    ensures Value(Decimal(n)) == n && (Decimal(n)[0] == '0' ==> n == 0)
  {
    DigitValue(n % 10);
    if n < 10 {
      assert Decimal(n)[..0] == [] && Value([]) == 0;
    } else {
      var front := Decimal(n / 10);
      DecimalValue(n / 10);
      assert Decimal(n)[..|front|] == front;
    }
  }

  lemma DigitValue(d: nat)
    requires d < 10
    ensures Digit(d) as int == '0' as int + d
  {
  }

  /** How a name reads. */
  lemma InstanceTextExample()
    ensures InstanceText("vadd", 12) == "vadd:vadd_12"
  {
    assert Decimal(12) == Decimal(1) + [Digit(2)] == "12";
  }

  predicate AllDigits(s: string) { forall c | c in s :: '0' <= c <= '9' }

  lemma {:induction false} DecimalDigits(n: nat)
    ensures AllDigits(Decimal(n)) && |Decimal(n)| > 0 && (n >= 10 ==> |Decimal(n)| > 1)
  {
    if n >= 10 {
      DecimalDigits(n / 10);
    }
  }

  lemma {:induction false} DecimalUnique(n: nat, m: nat)
    requires Decimal(n) == Decimal(m)
    ensures n == m
  {
    DecimalDigits(n);
    DecimalDigits(m);
    var s := Decimal(n);
    assert s[|s| - 1] == Digit(n % 10) == Digit(m % 10);
    if n >= 10 && m >= 10 {
      assert s[..|s| - 1] == Decimal(n / 10) == Decimal(m / 10);
      DecimalUnique(n / 10, m / 10);
    }
  }

  lemma LastUnderscore(s: string, a: string, d: string, b: string, e: string)
    requires AllDigits(d) && AllDigits(e) && s == a + "_" + d == b + "_" + e
    ensures |a| <= |b|
  {
    assert s[|a|] == '_';
    forall k | |b| < k < |s| ensures '0' <= s[k] <= '9' {
      assert s[k] == e[k - |b| - 1] && e[k - |b| - 1] in e;
    }
  }

  lemma SplitAtUnderscore(a: string, d: string, b: string, e: string)
    requires AllDigits(d) && AllDigits(e) && a + "_" + d == b + "_" + e
    ensures a == b && d == e
  {
    var s := a + "_" + d;
    LastUnderscore(s, a, d, b, e);
    LastUnderscore(s, b, e, a, d);
    assert a == s[..|a|] == s[..|b|] == b;
    assert d == s[|a| + 1..] == s[|b| + 1..] == e;
  }

  /** A shown instance name tells the kernel's symbol and the instance number. */
  lemma InstanceTextUnique(s: string, i: nat, t: string, j: nat)
    requires InstanceText(s, i) == InstanceText(t, j)
    ensures s == t && i == j
  {
    hide Decimal;
    DecimalDigits(i);
    DecimalDigits(j);
    SplitAtUnderscore(s + ":" + s, Decimal(i), t + ":" + t, Decimal(j));
    assert (s + ":" + s)[..|s|] == s && (t + ":" + t)[..|t|] == t;
    DecimalUnique(i, j);
  }

  /** Entry j really is kernel k's instance i according to the image table. */
  predicate TrueInstance(sks: seq<SoftKernel>, j: nat, k: nat, i: nat) {
    k < |sks| && i < sks[k].ninst && Start(sks, k) + i == j
  }

  lemma StartTail(sks: seq<SoftKernel>, k: nat)
    requires 0 < k <= |sks|
    ensures Start(sks, k) == sks[0].ninst + Start(sks[1..], k - 1)
  {
    assert sks[..k][1..] == sks[1..][..k - 1];
  }

  lemma TrueInstanceTail(sks: seq<SoftKernel>, j: nat, k: nat, i: nat)
    requires sks != [] && k > 0
    ensures TrueInstance(sks, j, k, i) <==> j >= sks[0].ninst && TrueInstance(sks[1..], j - sks[0].ninst, k - 1, i)
  {
    if k <= |sks| {
      StartTail(sks, k);
    }
  }

  /** No kernel without instances comes before one with instances. */
  predicate EmptyLast(sks: seq<SoftKernel>) {
    forall a, b | 0 <= a < b < |sks| && sks[b].ninst > 0 :: sks[a].ninst > 0
  }

  /**
   The ranges of the image table tile 0 .. total without gap or overlap, and the naming loop is
   their inverse: below total, entry j is named kernel k, instance i exactly when start(k) + i = j.
   */
  lemma {:induction false} NamingInvertsRanges(sks: seq<SoftKernel>, j: nat, k: nat, i: nat)
    requires EmptyLast(sks) && j < Total(sks)
    ensures Locate(sks, j).Instance?
    ensures Locate(sks, j) == Instance(k, i) <==> TrueInstance(sks, j, k, i)
  {
    if j >= sks[0].ninst {
      assert sks[0].ninst > 0 by {
        SumPositive(sks[1..], Ninst);
        var b :| 0 <= b < |sks[1..]| && Ninst(sks[1..][b]) > 0;
        assert sks[b + 1].ninst > 0;
      }
      assert sks[..0] == [];
      NamingInvertsRanges(sks[1..], j - sks[0].ninst, if k > 0 then k - 1 else 0, i);
      if k > 0 {
        TrueInstanceTail(sks, j, k, i);
      }
    } else {
      assert sks[..0] == [];
      if k > 0 {
        TrueInstanceTail(sks, j, k, i);
      }
    }
  }

  /** With instances everywhere, entries past the total keep the driver's name. */
  lemma {:induction false} PastTotal(sks: seq<SoftKernel>, j: nat)
    requires forall k | 0 <= k < |sks| :: sks[k].ninst > 0
    ensures Locate(sks, j) == DriverName <==> j >= Total(sks)
  {
    if sks != [] && j >= sks[0].ninst {
      PastTotal(sks[1..], j - sks[0].ninst);
    }
  }

  lemma LocateTail(sks: seq<SoftKernel>, j: nat)
    requires sks != [] && sks[0].ninst > 0
    ensures Locate(sks, sks[0].ninst + j) == Shift(1, Locate(sks[1..], j))
    ensures Total(sks) == sks[0].ninst + Total(sks[1..])
  {
  }

  /** The condition is exact: an empty kernel in front of a later instance is taken for that instance's kernel. */
  lemma {:induction false} EmptyKernelMisnames(sks: seq<SoftKernel>) returns (j: nat)
    requires !EmptyLast(sks)
    ensures j < Total(sks) && Locate(sks, j).Instance?
    ensures !TrueInstance(sks, j, Locate(sks, j).kernel, Locate(sks, j).inst)
  {
    hide Start;
    var a, b :| 0 <= a < b < |sks| && sks[b].ninst > 0 && sks[a].ninst == 0;
    if sks[0].ninst == 0 {
      j := 0;
      assert Ninst(sks[b]) > 0;
      SumPositive(sks, Ninst);
    } else {
      hide Locate, Total, TrueInstance;
      assert sks[1..][a - 1] == sks[a] && sks[1..][b - 1] == sks[b];
      var j' := EmptyKernelMisnames(sks[1..]);
      j := sks[0].ninst + j';
      LocateTail(sks, j');
      TrueInstanceTail(sks, j, Locate(sks, j).kernel, Locate(sks, j).inst);
    }
  }

  // ----- The names shown -----

  predicate DistinctSymbols(sks: seq<SoftKernel>) {
    forall a, b | 0 <= a < b < |sks| :: sks[a].symbol != sks[b].symbol
  }

  lemma {:induction false} TrueInstanceExists(sks: seq<SoftKernel>, j: nat) returns (k: nat, i: nat)
    requires j < Total(sks)
    ensures TrueInstance(sks, j, k, i)
  {
    assert sks[..0] == [];
    if j < sks[0].ninst {
      k, i := 0, j;
    } else {
      k, i := TrueInstanceExists(sks[1..], j - sks[0].ninst);
      k := k + 1;
      TrueInstanceTail(sks, j, k, i);
    }
  }

  /** Entry j shows the name of its true instance; what the driver calls it does not matter. */
  ghost predicate ShownRight(sks: seq<SoftKernel>, j: nat) {
    forall k: nat, i: nat, driver | TrueInstance(sks, j, k, i) ::
      Text(sks, Locate(sks, j), driver) == InstanceText(sks[k].symbol, i)
  }

  /**
   With distinct symbols and no empty kernel in front of another, the text shown for an entry below
   the total is that of kernel k, instance i exactly when start(k) + i = j.
   */
  lemma ShownNameTellsInstance(sks: seq<SoftKernel>, j: nat, k: nat, i: nat, driver: string)
    requires DistinctSymbols(sks) && EmptyLast(sks) && j < Total(sks) && k < |sks|
    ensures Text(sks, Locate(sks, j), driver) == InstanceText(sks[k].symbol, i) <==> TrueInstance(sks, j, k, i)
  {
    hide Locate, InstanceText, TrueInstance, EmptyLast;
    NamingInvertsRanges(sks, j, k, i);
    var name := Locate(sks, j);
    if Text(sks, name, driver) == InstanceText(sks[k].symbol, i) {
      InstanceTextUnique(sks[name.kernel].symbol, name.inst, sks[k].symbol, i);
    }
  }

  ghost predicate AllShownRight(sks: seq<SoftKernel>) {
    forall j: nat | j < Total(sks) :: ShownRight(sks, j)
  }

  predicate FirstEmpty(sks: seq<SoftKernel>, a: nat) {
    a < |sks| && sks[a].ninst == 0 && forall c | 0 <= c < a :: sks[c].ninst > 0
  }

  /** Behind the first empty kernel at most one kernel has instances, and it has the same symbol. */
  ghost predicate EmptyHarmless(sks: seq<SoftKernel>) {
    forall a: nat, b: nat | FirstEmpty(sks, a) && a < b < |sks| && sks[b].ninst > 0 ::
      sks[b].symbol == sks[a].symbol && forall c | a < c < |sks| && c != b :: sks[c].ninst == 0
  }

  lemma TextShift(sks: seq<SoftKernel>, name: ScuName, driver: string)
    requires sks != [] && (name.Instance? ==> name.kernel < |sks[1..]|)
    ensures Text(sks, Shift(1, name), driver) == Text(sks[1..], name, driver)
  {
  }

  lemma ShownTail(sks: seq<SoftKernel>, j: nat)
    requires sks != [] && sks[0].ninst > 0
    ensures if j < sks[0].ninst then ShownRight(sks, j)
            else ShownRight(sks, j) <==> ShownRight(sks[1..], j - sks[0].ninst)
  {
    hide InstanceText;
    assert sks[..0] == [];
    var n := sks[0].ninst;
    forall k: nat, i: nat
      ensures k > 0 ==> (TrueInstance(sks, j, k, i) <==> j >= n && TrueInstance(sks[1..], j - n, k - 1, i))
    {
      if k > 0 {
        TrueInstanceTail(sks, j, k, i);
      }
    }
    if j >= n {
      var name := Locate(sks[1..], j - n);
      forall driver ensures Text(sks, Locate(sks, j), driver) == Text(sks[1..], name, driver) {
        TextShift(sks, name, driver);
      }
      if ShownRight(sks, j) {
        forall k: nat, i: nat, driver | TrueInstance(sks[1..], j - n, k, i)
          ensures Text(sks[1..], name, driver) == InstanceText(sks[1..][k].symbol, i)
        {
          assert TrueInstance(sks, j, k + 1, i);
        }
      }
    }
  }

  lemma AllShownTail(sks: seq<SoftKernel>)
    requires sks != [] && sks[0].ninst > 0
    ensures AllShownRight(sks) <==> AllShownRight(sks[1..])
  {
    hide ShownRight;
    var n := sks[0].ninst;
    assert Total(sks) == n + Total(sks[1..]);
    forall j: nat ensures j < n ==> ShownRight(sks, j)
      ensures j >= n ==> (ShownRight(sks, j) <==> ShownRight(sks[1..], j - n))
    {
      ShownTail(sks, j);
    }
    if AllShownRight(sks) {
      forall j: nat | j < Total(sks[1..]) ensures ShownRight(sks[1..], j) {
        assert ShownRight(sks, j + n);
      }
    }
  }

  lemma HarmlessTail(sks: seq<SoftKernel>)
    requires sks != [] && sks[0].ninst > 0
    ensures EmptyHarmless(sks) <==> EmptyHarmless(sks[1..])
  {
    var t := sks[1..];
    forall a: nat ensures FirstEmpty(t, a) <==> FirstEmpty(sks, a + 1) {
    }
    if EmptyHarmless(sks) {
      forall a: nat, b: nat | FirstEmpty(t, a) && a < b < |t| && t[b].ninst > 0
        ensures t[b].symbol == t[a].symbol && forall c | a < c < |t| && c != b :: t[c].ninst == 0
      {
        assert FirstEmpty(sks, a + 1) && sks[b + 1].ninst > 0;
        forall c | a < c < |t| && c != b ensures t[c].ninst == 0 {
          assert sks[c + 1].ninst == 0;
        }
      }
    }
    if EmptyHarmless(t) {
      forall a: nat, b: nat | FirstEmpty(sks, a) && a < b < |sks| && sks[b].ninst > 0
        ensures sks[b].symbol == sks[a].symbol && forall c | a < c < |sks| && c != b :: sks[c].ninst == 0
      {
        assert FirstEmpty(t, a - 1) && t[b - 1].ninst > 0;
        forall c | a < c < |sks| && c != b ensures sks[c].ninst == 0 {
          assert t[c - 1].ninst == 0;
        }
      }
    }
  }

  /** All kernels up to b but b itself are empty: b's range starts at 0. */
  lemma {:induction false} StartOfOnly(sks: seq<SoftKernel>, b: nat)
    requires b < |sks| && forall c | 0 <= c < b :: sks[c].ninst == 0
    ensures Start(sks, b) == 0
  {
    if b > 0 {
      StartTail(sks, b);
      StartOfOnly(sks[1..], b - 1);
    } else {
      assert sks[..0] == [];
    }
  }

  lemma {:induction false} TotalOfOnly(sks: seq<SoftKernel>, b: nat)
    requires b < |sks| && forall c | 0 <= c < |sks| && c != b :: sks[c].ninst == 0
    ensures Total(sks) == sks[b].ninst
  {
    if b > 0 {
      TotalOfOnly(sks[1..], b - 1);
    } else {
      forall c | 0 <= c < |sks[1..]| ensures Ninst(sks[1..][c]) == 0 {
        assert sks[1..][c] == sks[c + 1];
      }
      SumPositive(sks[1..], Ninst);
    }
  }

  /** An empty kernel at the front shows for every entry its own symbol and the entry's number. */
  lemma EmptyInFront(sks: seq<SoftKernel>, j: nat, driver: string)
    requires sks != [] && sks[0].ninst == 0 && j < U32
    ensures Text(sks, Locate(sks, j), driver) == InstanceText(sks[0].symbol, j)
  {
  }

  lemma HarmlessShows(sks: seq<SoftKernel>, b: nat)
    requires FirstEmpty(sks, 0) && EmptyHarmless(sks) && 0 < b < |sks| && sks[b].ninst > 0
    ensures AllShownRight(sks)
  {
    hide InstanceText, Locate, EmptyHarmless, Start;
    assert sks[b].symbol == sks[0].symbol && forall c | 0 < c < |sks| && c != b :: sks[c].ninst == 0 by {
      OnlyOne(sks, b);
    }
    TotalOfOnly(sks, b);
    StartOfOnly(sks, b);
    forall j: nat | j < Total(sks) ensures ShownRight(sks, j) {
      forall k: nat, i: nat, driver | TrueInstance(sks, j, k, i)
        ensures Text(sks, Locate(sks, j), driver) == InstanceText(sks[k].symbol, i)
      {
        EmptyInFront(sks, j, driver);
        assert k == b && i == j;
      }
    }
  }

  lemma OnlyOne(sks: seq<SoftKernel>, b: nat)
    requires FirstEmpty(sks, 0) && EmptyHarmless(sks) && 0 < b < |sks| && sks[b].ninst > 0
    ensures sks[b].symbol == sks[0].symbol && forall c | 0 < c < |sks| && c != b :: sks[c].ninst == 0
  {
  }

  /** Where all names are right, an instance behind an empty front kernel is its only one and numbered alike. */
  lemma ShowsHarmless(sks: seq<SoftKernel>, b: nat)
    requires FirstEmpty(sks, 0) && AllShownRight(sks) && 0 < b < |sks| && sks[b].ninst > 0 && Start(sks, b) < U32
    ensures sks[b].symbol == sks[0].symbol && Start(sks, b) == 0
  {
    hide InstanceText, Locate;
    var j := Start(sks, b);
    StartStep(sks, b);
    assert ShownRight(sks, j) && TrueInstance(sks, j, b, 0);
    EmptyInFront(sks, j, []);
    assert InstanceText(sks[0].symbol, j) == InstanceText(sks[b].symbol, 0);
    InstanceTextUnique(sks[0].symbol, j, sks[b].symbol, 0);
  }

  lemma {:induction false} FirstNonEmpty(sks: seq<SoftKernel>, b: nat) returns (f: nat)
    requires b < |sks| && sks[b].ninst > 0
    ensures f <= b && sks[f].ninst > 0 && forall c | 0 <= c < f :: sks[c].ninst == 0
    decreases b
  {
    if c: nat :| c < b && sks[c].ninst > 0 {
      f := FirstNonEmpty(sks, c);
    } else {
      f := b;
    }
  }

  /**
   The names shown are right for all entries below the total exactly when nothing with instances
   follows an empty kernel, except a single kernel of the first empty one's symbol.
   */
  lemma {:induction false} ShownRightIffHarmless(sks: seq<SoftKernel>)
    ensures AllShownRight(sks) <==> EmptyHarmless(sks)
  {
    hide AllShownRight, EmptyHarmless;
    if sks == [] {
      NothingShown();
    } else if sks[0].ninst > 0 {
      AllShownTail(sks);
      HarmlessTail(sks);
      ShownRightIffHarmless(sks[1..]);
    } else if b: nat :| 0 < b < |sks| && sks[b].ninst > 0 {
      if EmptyHarmless(sks) {
        HarmlessShows(sks, b);
      }
      if AllShownRight(sks) {
        OneBehindEmpty(sks, b);
      }
    } else {
      AllEmpty(sks);
    }
  }

  lemma NothingShown()
    ensures AllShownRight([]) && EmptyHarmless([])
  {
  }

  lemma AllEmpty(sks: seq<SoftKernel>)
    requires forall c | 0 <= c < |sks| :: sks[c].ninst == 0
    ensures AllShownRight(sks) && EmptyHarmless(sks)
  {
    SumPositive(sks, Ninst);
  }

  lemma OneBehindEmpty(sks: seq<SoftKernel>, b: nat)
    requires FirstEmpty(sks, 0) && AllShownRight(sks) && 0 < b < |sks| && sks[b].ninst > 0
    ensures EmptyHarmless(sks)
  {
    hide AllShownRight, Start;
    var f := FirstNonEmpty(sks, b);
    StartOfOnly(sks, f);
    ShowsHarmless(sks, f);
    forall c: nat | f < c < |sks| ensures sks[c].ninst == 0 {
      NoSecond(sks, f, c);
    }
    assert forall c: nat | 0 < c < |sks| && c != f :: sks[c].ninst == 0;
  }

  lemma {:induction false} NoSecond(sks: seq<SoftKernel>, f: nat, c: nat)
    requires FirstEmpty(sks, 0) && AllShownRight(sks) && 0 < f < c < |sks| && sks[f].ninst > 0
    requires forall d | 0 <= d < f :: sks[d].ninst == 0
    ensures sks[c].ninst == 0 && Start(sks, c) == sks[f].ninst
    decreases c
  {
    hide AllShownRight, Start;
    StartStep(sks, c - 1);
    if c == f + 1 {
      StartOfOnly(sks, f);
    } else {
      NoSecond(sks, f, c - 1);
    }
    if sks[c].ninst > 0 {
      ShowsHarmless(sks, c);
    }
  }

  /** With distinct symbols: exactly when no empty kernel is in front of one with instances. */
  lemma ShownRightIffEmptyLast(sks: seq<SoftKernel>)
    requires DistinctSymbols(sks)
    ensures AllShownRight(sks) <==> EmptyLast(sks)
  {
    hide AllShownRight;
    ShownRightIffHarmless(sks);
    if a: nat, b: nat :| a < b < |sks| && sks[a].ninst == 0 && sks[b].ninst > 0 {
      var f := FirstEmptyExists(sks, a);
    }
  }

  lemma {:induction false} FirstEmptyExists(sks: seq<SoftKernel>, a: nat) returns (f: nat)
    requires a < |sks| && sks[a].ninst == 0
    ensures f <= a && FirstEmpty(sks, f)
    decreases a
  {
    if c: nat :| c < a && sks[c].ninst == 0 {
      f := FirstEmptyExists(sks, c);
    } else {
      f := a;
    }
  }

  /** Kernels that share a symbol can hide it: here the empty one shows the right name for the other's instance. */
  lemma SharedSymbolHides()
    ensures var sks := [SoftKernel("a", 0), SoftKernel("a", 1)];
      !EmptyLast(sks) && Total(sks) == 1 && ShownRight(sks, 0)
  {
    var sks := [SoftKernel("a", 0), SoftKernel("a", 1)];
    assert sks[1].ninst > 0 && sks[0].ninst == 0;
    assert sks[1..] == [sks[1]] && sks[1..][1..] == [];
    assert Total(sks) == 1 && Locate(sks, 0) == Instance(0, 0);
  }
}
