/**
 Usage metrics of one logger (core/common/usage_metrics.cpp): per-device buffer counters, contexts,
 and kernel run times.  The class is the logger; Step is what one logging call does to its map, and
 the theorems are about every sequence of calls.  Counts are 32 bits wide and byte counts 64; the
 accumulated kernel time is unbounded here.
 */
module UsageMetrics {
  import opened Common

  datatype Bos = Bos(totalCount: nat, totalSize: nat, peakSize: nat, syncedTo: nat, syncedFrom: nat)

  datatype Timestamp = Timestamp(start: nat, valid: bool)

  datatype Kernel = Kernel(name: string, numArgs: nat, runs: nat, time: int, execTimes: map<nat, Timestamp>)

  datatype Ctx = Ctx(handle: nat, uuid: nat, bos: Bos, kernels: seq<Kernel>)

  datatype Device = Device(globalBos: Bos, active: nat, peak: nat, ctxs: seq<Ctx>)

  datatype CmdState = New | Completed | OtherState

  /** A logging call.  A buffer without a context belongs to the device. */
  datatype Call =
    | DeviceInfo(dev: nat)
    | CtxInfo(dev: nat, handle: nat, uuid: nat)
    | BufferConstruct(dev: nat, size: nat, owner: Option<nat>)
    | BufferDestruct(dev: nat)
    | BufferSync(dev: nat, size: nat, owner: Option<nat>, toDevice: bool)
    | KernelInfo(dev: nat, handle: nat, name: string, args: nat)
    | KernelRun(dev: nat, handle: nat, name: string, exec: Exec)

  datatype Exec = Exec(run: nat, state: CmdState, now: nat)

  const NO_BOS := Bos(0, 0, 0, 0, 0)

  type Metrics = map<nat, Device>

  // ----- One call -----

  /** get_metrics on contexts and on kernels: the first match, or the length. */
  function FindCtx(ctxs: seq<Ctx>, handle: nat): (i: nat)
    ensures i <= |ctxs| && (i < |ctxs| ==> ctxs[i].handle == handle)
    ensures forall k | 0 <= k < i :: ctxs[k].handle != handle
  {
    if ctxs == [] || ctxs[0].handle == handle then 0 else 1 + FindCtx(ctxs[1..], handle)
  }

  function FindKernel(ks: seq<Kernel>, name: string): (i: nat)
    ensures i <= |ks| && (i < |ks| ==> ks[i].name == name) && forall k | 0 <= k < i :: ks[k].name != name
  {
    if ks == [] || ks[0].name == name then 0 else 1 + FindKernel(ks[1..], name)
  }

  /** std::chrono::duration_cast from nanoseconds to microseconds: truncates toward zero. */
  function Micros(ns: int): int { if ns >= 0 then ns / 1000 else -(-ns / 1000) }

  /** Whole microseconds, with the sign of the time. */
  lemma MicrosIs(ns: int)
    ensures ns >= 0 ==> 0 <= 1000 * Micros(ns) <= ns < 1000 * Micros(ns) + 1000
    ensures Micros(-ns) == -Micros(ns)
  {
  }

  function LogExec(k: Kernel, e: Exec): Kernel {
    var t := if e.run in k.execTimes then k.execTimes[e.run] else Timestamp(0, false);
    if e.state.New? then k.(execTimes := k.execTimes[e.run := Timestamp(e.now, true)])
    else if t.valid && e.state.Completed? then
      k.(runs := (k.runs + 1) % U32, time := k.time + Micros(e.now - t.start),
         execTimes := k.execTimes[e.run := t.(valid := false)])
    else k.(execTimes := k.execTimes[e.run := t])
  }

  function AddBuffer(b: Bos, size: nat): Bos {
    b.(totalCount := (b.totalCount + 1) % U32, totalSize := (b.totalSize + size) % U64,
       peakSize := Max(b.peakSize, size))
  }

  function AddSync(b: Bos, size: nat, toDevice: bool): Bos {
    if toDevice then b.(syncedTo := (b.syncedTo + size) % U64) else b.(syncedFrom := (b.syncedFrom + size) % U64)
  }

  function CountBuffer(d: Device): Device {
    var active := (d.active + 1) % U32;
    d.(active := active, peak := Max(d.peak, active))
  }

  function NewKernel(name: string, args: nat): Kernel { Kernel(name, args, 0, 0, map[]) }

  function SetCtx(d: Device, i: nat, c: Ctx): Device
    requires i < |d.ctxs|
  {
    d.(ctxs := d.ctxs[i := c])
  }

  /** The context a call addresses, where it addresses one that has to exist already. */
  function Target(call: Call): Option<nat> {
    match call
    case BufferConstruct(_, _, owner) => owner
    case BufferSync(_, _, owner, _) => owner
    case KernelInfo(_, h, _, _) => Some(h)
    case KernelRun(_, h, _, _) => Some(h)
    case _ => None
  }

  function StepCtx(c: Ctx, call: Call): Ctx {
    match call
    case BufferConstruct(_, size, _) => c.(bos := AddBuffer(c.bos, size))
    case BufferSync(_, size, _, to) => c.(bos := AddSync(c.bos, size, to))
    case KernelInfo(_, _, name, args) =>
      if FindKernel(c.kernels, name) < |c.kernels| then c else c.(kernels := c.kernels + [NewKernel(name, args)])
    case KernelRun(_, _, name, e) =>
      var j := FindKernel(c.kernels, name);
      if j == |c.kernels| then c else c.(kernels := c.kernels[j := LogExec(c.kernels[j], e)])
    case _ => c
  }

  function StepDevice(d: Device, call: Call): Device {
    if call.CtxInfo? then
      if FindCtx(d.ctxs, call.handle) < |d.ctxs| then d
      else d.(ctxs := d.ctxs + [Ctx(call.handle, call.uuid, NO_BOS, [])])
    else if Target(call).Some? then
      var i := FindCtx(d.ctxs, Target(call).value);
      if i == |d.ctxs| then d
      else
        var d' := SetCtx(d, i, StepCtx(d.ctxs[i], call));
        if call.BufferConstruct? then CountBuffer(d') else d'
    else match call
      case BufferConstruct(_, size, _) => CountBuffer(d.(globalBos := AddBuffer(d.globalBos, size)))
      case BufferSync(_, size, _, to) => d.(globalBos := AddSync(d.globalBos, size, to))
      case _ => d
  }

  /** Calls on devices that were never logged are ignored. */
  function Step(m: Metrics, call: Call): Metrics {
    if call.dev in m then m[call.dev := StepDevice(m[call.dev], call)]
    else if call.DeviceInfo? then m[call.dev := Device(NO_BOS, 0, 0, [])]
    else m
  }

  function After(calls: seq<Call>): Metrics {
    if calls == [] then map[] else Step(After(calls[..|calls| - 1]), calls[|calls| - 1])
  }

  class Logger {
    var devs: Metrics

    constructor ()
      ensures devs == After([])
    {
      devs := map[];
    }

    method LogDeviceInfo(dev: nat)
      modifies this
      ensures devs == Step(old(devs), DeviceInfo(dev))
    {
      if dev !in devs {
        devs := devs[dev := Device(NO_BOS, 0, 0, [])];
      }
    }

    method LogHwCtxInfo(dev: nat, handle: nat, uuid: nat)
      modifies this
      ensures devs == Step(old(devs), CtxInfo(dev, handle, uuid))
    {
      if dev in devs {
        var d := devs[dev];
        if FindCtx(d.ctxs, handle) == |d.ctxs| {
          devs := devs[dev := d.(ctxs := d.ctxs + [Ctx(handle, uuid, NO_BOS, [])])];
        }
      }
    }

    method LogBufferInfoConstruct(dev: nat, size: nat, owner: Option<nat>)
      modifies this
      ensures devs == Step(old(devs), BufferConstruct(dev, size, owner))
    {
      if dev !in devs {
        return;
      }
      var d := devs[dev];
      if owner.None? {
        d := d.(globalBos := AddBuffer(d.globalBos, size));
      } else {
        var i := FindCtx(d.ctxs, owner.value);
        if i == |d.ctxs| {
          return;
        }
        d := SetCtx(d, i, d.ctxs[i].(bos := AddBuffer(d.ctxs[i].bos, size)));
      }
      d := d.(active := (d.active + 1) % U32);
      d := d.(peak := Max(d.peak, d.active));
      devs := devs[dev := d];
    }

    method LogBufferSync(dev: nat, size: nat, owner: Option<nat>, toDevice: bool)
      modifies this
      ensures devs == Step(old(devs), BufferSync(dev, size, owner, toDevice))
    {
      if dev !in devs {
        return;
      }
      var d := devs[dev];
      if owner.None? {
        d := d.(globalBos := AddSync(d.globalBos, size, toDevice));
      } else {
        var i := FindCtx(d.ctxs, owner.value);
        if i == |d.ctxs| {
          return;
        }
        d := SetCtx(d, i, d.ctxs[i].(bos := AddSync(d.ctxs[i].bos, size, toDevice)));
      }
      devs := devs[dev := d];
    }

    method LogKernelInfo(dev: nat, handle: nat, name: string, args: nat)
      modifies this
      ensures devs == Step(old(devs), KernelInfo(dev, handle, name, args))
    {
      if dev !in devs {
        return;
      }
      var d := devs[dev];
      var i := FindCtx(d.ctxs, handle);
      if i == |d.ctxs| {
        return;
      }
      var c := d.ctxs[i];
      assert d.ctxs[i := c] == d.ctxs;
      if FindKernel(c.kernels, name) == |c.kernels| {
        devs := devs[dev := SetCtx(d, i, c.(kernels := c.kernels + [NewKernel(name, args)]))];
      }
    }

    method LogKernelRunInfo(dev: nat, handle: nat, name: string, e: Exec)
      modifies this
      ensures devs == Step(old(devs), KernelRun(dev, handle, name, e))
    {
      if dev !in devs {
        return;
      }
      var d := devs[dev];
      var i := FindCtx(d.ctxs, handle);
      if i == |d.ctxs| {
        return;
      }
      var c := d.ctxs[i];
      assert d.ctxs[i := c] == d.ctxs;
      var j := FindKernel(c.kernels, name);
      if j == |c.kernels| {
        return;
      }
      devs := devs[dev := SetCtx(d, i, c.(kernels := c.kernels[j := LogExec(c.kernels[j], e)]))];
    }
  }

  // ----- Lookups -----

  lemma {:induction false} FindCtxIs(ctxs: seq<Ctx>, handle: nat, i: nat)
    requires i <= |ctxs| && (i < |ctxs| ==> ctxs[i].handle == handle)
    requires forall k | 0 <= k < i :: ctxs[k].handle != handle
    ensures FindCtx(ctxs, handle) == i
  {
    if i > 0 {
      FindCtxIs(ctxs[1..], handle, i - 1);
    }
  }

  lemma {:induction false} FindKernelIs(ks: seq<Kernel>, name: string, i: nat)
    requires i <= |ks| && (i < |ks| ==> ks[i].name == name) && forall k | 0 <= k < i :: ks[k].name != name
    ensures FindKernel(ks, name) == i
  {
    if i > 0 {
      FindKernelIs(ks[1..], name, i - 1);
    }
  }

  function CtxIn(d: Device, handle: nat): Option<Ctx> {
    var i := FindCtx(d.ctxs, handle);
    if i == |d.ctxs| then None else Some(d.ctxs[i])
  }

  /** The counters of the device itself, or of one of its contexts. */
  function BosIn(d: Device, owner: Option<nat>): Option<Bos> {
    if owner.None? then Some(d.globalBos)
    else match CtxIn(d, owner.value)
      case None => None
      case Some(c) => Some(c.bos)
  }

  function BosOf(m: Metrics, dev: nat, owner: Option<nat>): Option<Bos> {
    if dev in m then BosIn(m[dev], owner) else None
  }

  function KernelInCtx(c: Ctx, name: string): Option<Kernel> {
    var j := FindKernel(c.kernels, name);
    if j == |c.kernels| then None else Some(c.kernels[j])
  }

  function KernelIn(d: Device, handle: nat, name: string): Option<Kernel> {
    match CtxIn(d, handle)
    case None => None
    case Some(c) => KernelInCtx(c, name)
  }

  function KernelOf(m: Metrics, dev: nat, handle: nat, name: string): Option<Kernel> {
    if dev in m then KernelIn(m[dev], handle, name) else None
  }

  /** A call creates the context it logs, changes the one it addresses, and no other. */
  lemma StepCtxIn(d: Device, call: Call, handle: nat)
    ensures CtxIn(StepDevice(d, call), handle) ==
      match CtxIn(d, handle)
      case None => if call.CtxInfo? && call.handle == handle then Some(Ctx(handle, call.uuid, NO_BOS, [])) else None
      case Some(c) => Some(if Target(call) == Some(handle) then StepCtx(c, call) else c)
  {
    hide FindCtx, StepCtx;
    StepCtxHandle(d, call);
    var d' := StepDevice(d, call);
    var i := FindCtx(d.ctxs, handle);
    if i < |d'.ctxs| && (i < |d.ctxs| || d'.ctxs[i].handle == handle) {
      FindCtxIs(d'.ctxs, handle, i);
    } else {
      FindCtxIs(d'.ctxs, handle, |d'.ctxs|);
    }
  }

  lemma StepCtxHandle(d: Device, call: Call)
    ensures forall c | c in d.ctxs :: StepCtx(c, call).handle == c.handle
  {
  }

  /** What a logged buffer call says of its owner: a buffer made, or bytes synced. */
  datatype Event = Made(size: nat) | SyncedTo(size: nat) | SyncedFrom(size: nat)

  function EventOf(call: Call): Option<Event> {
    match call
    case BufferConstruct(_, size, _) => Some(Made(size))
    case BufferSync(_, size, _, to) => Some(if to then SyncedTo(size) else SyncedFrom(size))
    case _ => None
  }

  function Count(b: Bos, e: Event): Bos {
    match e
    case Made(size) => AddBuffer(b, size)
    case SyncedTo(size) => AddSync(b, size, true)
    case SyncedFrom(size) => AddSync(b, size, false)
  }

  /** Only its own buffer events change an owner's counters; logging a context creates it, with none. */
  lemma StepBos(d: Device, call: Call, owner: Option<nat>)
    ensures var before, after := BosIn(d, owner), BosIn(StepDevice(d, call), owner);
      if before.None? then after == if call.CtxInfo? && Some(call.handle) == owner then Some(NO_BOS) else None
      else if EventOf(call).Some? && call.owner == owner then after == Some(Count(before.value, EventOf(call).value))
      else after == before
  {
    hide CtxIn, AddBuffer, AddSync, FindCtx, FindKernel;
    if owner.Some? {
      hide StepDevice;
      StepCtxIn(d, call, owner.value);
    }
  }

  lemma LogExecName(k: Kernel, e: Exec)
    ensures LogExec(k, e).name == k.name && LogExec(k, e).numArgs == k.numArgs
  {
  }

  lemma StepKernelInCtx(c: Ctx, call: Call, name: string)
    ensures var before, after := KernelInCtx(c, name), KernelInCtx(StepCtx(c, call), name);
      if call.KernelRun? && call.name == name then
        after == if before.Some? then Some(LogExec(before.value, call.exec)) else None
      else if call.KernelInfo? && call.name == name && before.None? then after == Some(NewKernel(name, call.args))
      else after == before
  {
    hide FindKernel, LogExec, AddBuffer, AddSync;
    var ks, ks' := c.kernels, StepCtx(c, call).kernels;
    var j := FindKernel(ks, name);
    if call.KernelRun? && FindKernel(ks, call.name) < |ks| {
      LogExecName(ks[FindKernel(ks, call.name)], call.exec);
    }
    if j < |ks| {
      FindKernelIs(ks', name, j);
    } else if |ks'| > |ks| && ks'[|ks|].name == name {
      FindKernelIs(ks', name, |ks|);
    } else {
      FindKernelIs(ks', name, |ks'|);
    }
  }

  /** Only two calls touch a kernel: the one that logs it, which creates it in a known context, and its run events. */
  lemma StepKernel(d: Device, call: Call, handle: nat, name: string)
    ensures var before, after := KernelIn(d, handle, name), KernelIn(StepDevice(d, call), handle, name);
      if call.KernelRun? && call.handle == handle && call.name == name then
        after == if before.Some? then Some(LogExec(before.value, call.exec)) else None
      else if call.KernelInfo? && call.handle == handle && call.name == name && before.None? then
        after == if BosIn(d, Some(handle)).Some? then Some(NewKernel(name, call.args)) else None
      else after == before
  {
    hide CtxIn, StepCtx, StepDevice, LogExec, KernelInCtx;
    StepCtxIn(d, call, handle);
    match CtxIn(d, handle)
    case None => NoKernels(handle, if call.CtxInfo? then call.uuid else 0, name);
    case Some(c) => StepKernelInCtx(c, call, name);
  }

  lemma NoKernels(handle: nat, uuid: nat, name: string)
    ensures KernelInCtx(Ctx(handle, uuid, NO_BOS, []), name) == None
  {
  }

  lemma FreshDevice(owner: Option<nat>, handle: nat, name: string)
    ensures var d := Device(NO_BOS, 0, 0, []);
      BosIn(d, owner) == (if owner.None? then Some(NO_BOS) else None) && KernelIn(d, handle, name) == None
  {
  }

  // ----- What is known, from the calls alone -----

  /** The device has been logged. */
  ghost predicate DeviceKnown(calls: seq<Call>, dev: nat) {
    DeviceInfo(dev) in calls
  }

  /** Call k logs the context, after its device. */
  ghost predicate CtxLogged(calls: seq<Call>, dev: nat, handle: nat, k: nat) {
    && k < |calls| && calls[k].CtxInfo? && calls[k].dev == dev && calls[k].handle == handle
    && DeviceKnown(calls[..k], dev)
  }

  ghost predicate CtxKnown(calls: seq<Call>, dev: nat, handle: nat) {
    exists k: nat :: CtxLogged(calls, dev, handle, k)
  }

  /** Call k logs the kernel, after its context. */
  ghost predicate KernelLogged(calls: seq<Call>, dev: nat, handle: nat, name: string, k: nat) {
    && k < |calls| && calls[k].KernelInfo? && calls[k].dev == dev && calls[k].handle == handle && calls[k].name == name
    && CtxKnown(calls[..k], dev, handle)
  }

  ghost predicate KernelKnown(calls: seq<Call>, dev: nat, handle: nat, name: string) {
    exists k: nat :: KernelLogged(calls, dev, handle, name, k)
  }

  ghost predicate OwnerKnown(calls: seq<Call>, dev: nat, owner: Option<nat>) {
    if owner.None? then DeviceKnown(calls, dev) else CtxKnown(calls, dev, owner.value)
  }

  lemma CtxKnownStep(before: seq<Call>, call: Call, dev: nat, handle: nat)
    ensures CtxKnown(before + [call], dev, handle) <==>
            CtxKnown(before, dev, handle)
            || (call.CtxInfo? && call.dev == dev && call.handle == handle && DeviceKnown(before, dev))
  {
    var calls := before + [call];
    assert forall k: nat | k <= |before| :: calls[..k] == before[..k];
    assert before[..|before|] == before;
    forall k: nat | CtxLogged(before, dev, handle, k) ensures CtxLogged(calls, dev, handle, k) {
    }
    if CtxLogged(calls, dev, handle, |before|) {
      assert calls[|before|] == call;
    }
    forall k: nat | CtxLogged(calls, dev, handle, k) && k < |before| ensures CtxLogged(before, dev, handle, k) {
    }
    if call.CtxInfo? && call.dev == dev && call.handle == handle && DeviceKnown(before, dev) {
      assert CtxLogged(calls, dev, handle, |before|);
    }
  }

  lemma KernelKnownStep(before: seq<Call>, call: Call, dev: nat, handle: nat, name: string)
    ensures KernelKnown(before + [call], dev, handle, name) <==>
            KernelKnown(before, dev, handle, name)
            || (call.KernelInfo? && call.dev == dev && call.handle == handle && call.name == name
                && CtxKnown(before, dev, handle))
  {
    hide CtxKnown;
    var calls := before + [call];
    assert forall k: nat | k <= |before| :: calls[..k] == before[..k];
    assert before[..|before|] == before;
    forall k: nat | KernelLogged(before, dev, handle, name, k) ensures KernelLogged(calls, dev, handle, name, k) {
    }
    if KernelLogged(calls, dev, handle, name, |before|) {
      assert calls[|before|] == call;
    }
    forall k: nat | KernelLogged(calls, dev, handle, name, k) && k < |before|
      ensures KernelLogged(before, dev, handle, name, k)
    {
    }
    if call.KernelInfo? && call.dev == dev && call.handle == handle && call.name == name
       && CtxKnown(before, dev, handle)
    {
      assert KernelLogged(calls, dev, handle, name, |before|);
    }
  }

  /**
   The logger records exactly what was logged in order: a device once logged, a context logged after
   its device, a kernel logged after its context.
   */
  lemma {:induction false} RecordsWhatIsKnown(calls: seq<Call>, dev: nat, handle: nat, name: string)
    ensures dev in After(calls) <==> DeviceKnown(calls, dev)
    ensures BosOf(After(calls), dev, None).Some? <==> DeviceKnown(calls, dev)
    ensures BosOf(After(calls), dev, Some(handle)).Some? <==> CtxKnown(calls, dev, handle)
    ensures KernelOf(After(calls), dev, handle, name).Some? <==> KernelKnown(calls, dev, handle, name)
  {
    hide StepDevice, BosIn, KernelIn, CtxKnown, KernelKnown, LogExec, Count;
    if calls == [] {
      NothingKnown(dev, handle, name);
    } else {
      var before, call := calls[..|calls| - 1], calls[|calls| - 1];
      assert calls == before + [call];
      RecordsWhatIsKnown(before, dev, handle, name);
      CtxKnownStep(before, call, dev, handle);
      KernelKnownStep(before, call, dev, handle, name);
      FreshDevice(None, handle, name);
      FreshDevice(Some(handle), handle, name);
      var m := After(before);
      if call.dev == dev && dev in m {
        StepBos(m[dev], call, None);
        StepBos(m[dev], call, Some(handle));
        StepKernel(m[dev], call, handle, name);
      }
    }
  }

  lemma NothingKnown(dev: nat, handle: nat, name: string)
    ensures !CtxKnown([], dev, handle) && !KernelKnown([], dev, handle, name)
  {
  }

  /** The xclbin given when the context was first logged after its device. */
  ghost function LoggedUuid(calls: seq<Call>, dev: nat, handle: nat): nat {
    if calls == [] then 0
    else
      var before, call := calls[..|calls| - 1], calls[|calls| - 1];
      if call.CtxInfo? && call.dev == dev && call.handle == handle
         && DeviceKnown(before, dev) && !CtxKnown(before, dev, handle)
      then call.uuid else LoggedUuid(before, dev, handle)
  }

  /** A context keeps the handle and the xclbin of its first logging. */
  lemma {:induction false} ContextIdentity(calls: seq<Call>, dev: nat, handle: nat)
    requires CtxKnown(calls, dev, handle)
    ensures dev in After(calls) && CtxIn(After(calls)[dev], handle).Some?
    ensures var c := CtxIn(After(calls)[dev], handle).value;
      c.handle == handle && c.uuid == LoggedUuid(calls, dev, handle)
  {
    hide StepDevice, CtxKnown, CtxIn;
    RecordsWhatIsKnown(calls, dev, handle, []);
    if calls == [] {
      NothingKnown(dev, handle, []);
    } else {
      var before, call := calls[..|calls| - 1], calls[|calls| - 1];
      assert calls == before + [call];
      CtxKnownStep(before, call, dev, handle);
      RecordsWhatIsKnown(before, dev, handle, []);
      var d := After(before)[dev];
      StepCtxIn(d, call, handle);
      if CtxKnown(before, dev, handle) {
        ContextIdentity(before, dev, handle);
        StepCtxIdentity(CtxIn(d, handle).value, call);
      }
    }
  }

  lemma StepCtxIdentity(c: Ctx, call: Call)
    ensures StepCtx(c, call).handle == c.handle && StepCtx(c, call).uuid == c.uuid
  {
  }

  /** An owner is known exactly when the logger has counters for it. */
  lemma OwnerRecorded(calls: seq<Call>, dev: nat, owner: Option<nat>)
    ensures BosOf(After(calls), dev, owner).Some? <==> OwnerKnown(calls, dev, owner)
  {
    RecordsWhatIsKnown(calls, dev, if owner.Some? then owner.value else 0, []);
  }

  // ----- Buffer counters -----

  function One(e: Event): nat { if e.Made? then 1 else 0 }
  function MadeBytes(e: Event): nat { if e.Made? then e.size else 0 }
  function ToBytes(e: Event): nat { if e.SyncedTo? then e.size else 0 }
  function FromBytes(e: Event): nat { if e.SyncedFrom? then e.size else 0 }

  /** The buffer events of an owner that were logged once the owner itself had been. */
  ghost function HeardBuffers(calls: seq<Call>, dev: nat, owner: Option<nat>): seq<Event> {
    if calls == [] then []
    else
      var before, call := calls[..|calls| - 1], calls[|calls| - 1];
      HeardBuffers(before, dev, owner)
      + if EventOf(call).Some? && call.dev == dev && call.owner == owner && OwnerKnown(before, dev, owner)
        then [EventOf(call).value] else []
  }

  /** Counters that add up a list of events, as far as their width goes; the peak is the largest buffer made. */
  ghost predicate AddsUp(b: Bos, es: seq<Event>) {
    && b.totalCount == Sum(es, One) % U32
    && b.totalSize == Sum(es, MadeBytes) % U64
    && b.syncedTo == Sum(es, ToBytes) % U64
    && b.syncedFrom == Sum(es, FromBytes) % U64
    && (forall e | e in es :: MadeBytes(e) <= b.peakSize)
    && (b.peakSize == 0 || exists e :: e in es && MadeBytes(e) == b.peakSize)
  }

  lemma CountAddsUp(b: Bos, es: seq<Event>, e: Event)
    requires AddsUp(b, es)
    ensures AddsUp(Count(b, e), es + [e])
  {
    hide Sum;
    SumSnoc(es, e, One);
    SumSnoc(es, e, MadeBytes);
    SumSnoc(es, e, ToBytes);
    SumSnoc(es, e, FromBytes);
    AddMod32(Sum(es, One), One(e));
    AddMod64(Sum(es, MadeBytes), e.size);
    AddMod64(Sum(es, ToBytes), e.size);
    AddMod64(Sum(es, FromBytes), e.size);
    var b', es' := Count(b, e), es + [e];
    assert forall x | x in es' :: x in es || x == e;
    if b'.peakSize == b.peakSize > 0 {
      var x :| x in es && MadeBytes(x) == b.peakSize;
      assert x in es';
    } else {
      assert e in es';
    }
  }

  lemma NothingAddsUp()
    ensures AddsUp(NO_BOS, [])
  {
  }

  /**
   After any sequence of calls, counters exist for exactly the known owners, and are the number,
   total and largest size of the buffers and the bytes synced each way among the events since then.
   */
  lemma {:induction false} BufferCountersAddUp(calls: seq<Call>, dev: nat, owner: Option<nat>)
    ensures BosOf(After(calls), dev, owner).Some? <==> OwnerKnown(calls, dev, owner)
    ensures match BosOf(After(calls), dev, owner)
      case None => HeardBuffers(calls, dev, owner) == []
      case Some(b) => AddsUp(b, HeardBuffers(calls, dev, owner))
  {
    hide StepDevice, BosIn, AddsUp, Count, OwnerKnown;
    OwnerRecorded(calls, dev, owner);
    if calls != [] {
      var before, call := calls[..|calls| - 1], calls[|calls| - 1];
      BufferCountersAddUp(before, dev, owner);
      var m, heard := After(before), HeardBuffers(before, dev, owner);
      assert heard + [] == heard;
      NothingAddsUp();
      if call.dev == dev && dev in m {
        StepBos(m[dev], call, owner);
        var b := BosOf(m, dev, owner);
        if EventOf(call).Some? && b.Some? {
          CountAddsUp(b.value, heard, EventOf(call).value);
        }
      } else {
        FreshDevice(owner, 0, []);
      }
    }
  }

  function Average(b: Bos): nat { if b.totalCount > 0 then b.totalSize / b.totalCount else 0 }

  lemma {:induction false} SizeBound(es: seq<Event>, peak: nat)
    requires forall e | e in es :: MadeBytes(e) <= peak
    ensures Sum(es, MadeBytes) <= Sum(es, One) * peak
  {
    if es != [] {
      assert es[0] in es && forall e | e in es[1..] :: e in es;
      SizeBound(es[1..], peak);
      assert (One(es[0]) + Sum(es[1..], One)) * peak == One(es[0]) * peak + Sum(es[1..], One) * peak;
    }
  }

  lemma QuotientAtMost(x: nat, n: nat, p: nat)
    requires n > 0
    ensures x / n <= p <==> x < n * (p + 1)
  {
    var q := x / n;
    assert q * n <= x < q * n + n == (q + 1) * n;
    if q <= p {
      MulMonotone(q + 1, p + 1, n);
    } else {
      MulMonotone(p + 1, q, n);
    }
  }

  /**
   The reported average stays within the peak size exactly when the count, in its 32 bits, is zero or
   the bytes, in their 64 bits, are fewer than that many times one more than the peak size.
   */
  lemma AverageIsBelowPeakIff(calls: seq<Call>, dev: nat, owner: Option<nat>)
    requires OwnerKnown(calls, dev, owner)
    ensures BosOf(After(calls), dev, owner).Some?
    ensures var b, es := BosOf(After(calls), dev, owner).value, HeardBuffers(calls, dev, owner);
      var n, bytes := Sum(es, One), Sum(es, MadeBytes);
      Average(b) <= b.peakSize <==> n % U32 == 0 || bytes % U64 < n % U32 * (b.peakSize + 1)
  {
    hide OwnerKnown, BosOf, HeardBuffers, Sum;
    BufferCountersAddUp(calls, dev, owner);
    var b := BosOf(After(calls), dev, owner).value;
    if b.totalCount > 0 {
      QuotientAtMost(b.totalSize, b.totalCount, b.peakSize);
    }
  }

  /** The reported average never exceeds the peak size while the number of buffers fits its counter. */
  lemma AverageBelowPeak(calls: seq<Call>, dev: nat, owner: Option<nat>)
    requires OwnerKnown(calls, dev, owner)
    requires Sum(HeardBuffers(calls, dev, owner), One) < U32
    ensures BosOf(After(calls), dev, owner).Some?
    ensures var b := BosOf(After(calls), dev, owner).value; Average(b) <= b.peakSize
  {
    hide OwnerKnown, BosOf, HeardBuffers, Sum, Average;
    BufferCountersAddUp(calls, dev, owner);
    AverageIsBelowPeakIff(calls, dev, owner);
    var b, es := BosOf(After(calls), dev, owner).value, HeardBuffers(calls, dev, owner);
    SizeBound(es, b.peakSize);
    var n := Sum(es, One);
    assert n * (b.peakSize + 1) == n * b.peakSize + n;
  }

  /** n buffers of one byte on a device. */
  function Ones(n: nat): seq<Call> { [DeviceInfo(0)] + seq(n, _ => BufferConstruct(0, 1, None)) }

  lemma {:induction false} OnesHeard(n: nat)
    ensures DeviceKnown(Ones(n), 0)
    ensures var es := HeardBuffers(Ones(n), 0, None);
      Sum(es, One) == Sum(es, MadeBytes) == n && forall e | e in es :: e == Made(1)
  {
    var calls := Ones(n);
    assert calls[0] == DeviceInfo(0);
    if n == 0 {
      assert calls[..0] == [];
    } else {
      assert calls[..n] == Ones(n - 1);
      OnesHeard(n - 1);
      var es := HeardBuffers(Ones(n - 1), 0, None);
      SumSnoc(es, Made(1), One);
      SumSnoc(es, Made(1), MadeBytes);
      assert HeardBuffers(calls, 0, None) == es + [Made(1)];
    }
  }

  /** The width of the count matters: after 2^32 + 1 one-byte buffers the average is 2^32 + 1 bytes, the peak 1. */
  lemma AverageAboveWrappedCount()
    ensures BosOf(After(Ones(U32 + 1)), 0, None).Some?
    ensures var b := BosOf(After(Ones(U32 + 1)), 0, None).value; Average(b) == U32 + 1 && b.peakSize == 1
  {
    hide After, Ones, BosOf, HeardBuffers, Sum;
    OnesHeard(U32 + 1);
    BufferCountersAddUp(Ones(U32 + 1), 0, None);
    var b, es := BosOf(After(Ones(U32 + 1)), 0, None).value, HeardBuffers(Ones(U32 + 1), 0, None);
    if es == [] {
      SumEmpty(One);
    } else {
      assert es[0] in es;
    }
  }

  // ----- Active and peak counts of a device -----

  function CtxCount(c: Ctx): nat { c.bos.totalCount }

  function BufferCount(d: Device): nat { d.globalBos.totalCount + Sum(d.ctxs, CtxCount) }

  /** After n counted buffers: both counts are n as far as 32 bits go, and so is the sum of the owners' counts. */
  ghost predicate CountsTo(d: Device, n: nat) {
    && d.active == n % U32
    && d.peak == Min(n, U32 - 1)
    && BufferCount(d) <= n && BufferCount(d) % U32 == n % U32
  }

  predicate Counted(d: Device, call: Call) { call.BufferConstruct? && BosIn(d, call.owner).Some? }

  lemma CountAgain(total: nat, c: nat)
    requires c <= total
    ensures var total' := total - c + (c + 1) % U32; total' <= total + 1 && total' % U32 == (total + 1) % U32
  {
    AddMod32(c + 1, total - c);
  }

  lemma SetCtxCount(d: Device, i: nat, c: Ctx)
    requires i < |d.ctxs|
    ensures BufferCount(SetCtx(d, i, c)) + CtxCount(d.ctxs[i]) == BufferCount(d) + CtxCount(c)
    ensures CtxCount(d.ctxs[i]) <= BufferCount(d)
  {
    SumUpdate(d.ctxs, i, c, CtxCount);
    SumUpdate(d.ctxs, i, Ctx(0, 0, NO_BOS, []), CtxCount);
  }

  /** A call counts a buffer once in its owner and once in the device, or changes no count. */
  lemma StepBufferCount(d: Device, call: Call)
    ensures var d' := StepDevice(d, call);
      if Counted(d, call) then
        && d'.active == (d.active + 1) % U32 && d'.peak == Max(d.peak, d'.active)
        && BufferCount(d') <= BufferCount(d) + 1 && BufferCount(d') % U32 == (BufferCount(d) + 1) % U32
      else d'.active == d.active && d'.peak == d.peak && BufferCount(d') == BufferCount(d)
  {
    hide Sum, LogExec, FindKernel, FindCtx;
    var d' := StepDevice(d, call);
    if |d'.ctxs| == |d.ctxs| + 1 {
      SumSnoc(d.ctxs, d'.ctxs[|d.ctxs|], CtxCount);
    } else if !call.DeviceInfo? && !call.BufferDestruct? {
      var h := if call.BufferConstruct? || call.BufferSync? then call.owner else Some(call.handle);
      if h.None? {
        CountAgain(BufferCount(d), d.globalBos.totalCount);
      } else {
        var i := FindCtx(d.ctxs, h.value);
        if i < |d.ctxs| {
          assert d'.ctxs == SetCtx(d, i, d'.ctxs[i]).ctxs;
          SetCtxCount(d, i, d'.ctxs[i]);
          CountAgain(BufferCount(d), CtxCount(d.ctxs[i]));
        }
      }
    }
  }

  lemma StepCounts(d: Device, call: Call, n: nat)
    requires CountsTo(d, n)
    ensures CountsTo(StepDevice(d, call), n + if Counted(d, call) then 1 else 0)
  {
    hide StepDevice, BufferCount, Counted;
    StepBufferCount(d, call);
    AddMod32(n, 1);
    AddMod32(BufferCount(d), 1);
  }

  /** The buffers logged on a device or on a known context of it. */
  ghost function BuffersOn(calls: seq<Call>, dev: nat): nat {
    if calls == [] then 0
    else
      var before, call := calls[..|calls| - 1], calls[|calls| - 1];
      BuffersOn(before, dev)
      + if call.BufferConstruct? && call.dev == dev && OwnerKnown(before, dev, call.owner) then 1 else 0
  }

  lemma {:induction false} NoneOnUnknown(calls: seq<Call>, dev: nat)
    requires !DeviceKnown(calls, dev)
    ensures BuffersOn(calls, dev) == 0
  {
    hide OwnerKnown, BosIn, StepDevice;
    if calls != [] {
      var before, call := calls[..|calls| - 1], calls[|calls| - 1];
      NoneOnUnknown(before, dev);
      RecordsWhatIsKnown(before, dev, 0, []);
      if call.BufferConstruct? {
        OwnerRecorded(before, dev, call.owner);
      }
    }
  }

  lemma {:induction false} CountsAlways(calls: seq<Call>, dev: nat)
    requires DeviceKnown(calls, dev)
    ensures dev in After(calls) && CountsTo(After(calls)[dev], BuffersOn(calls, dev))
  {
    hide OwnerKnown, BosIn, StepDevice, CountsTo;
    RecordsWhatIsKnown(calls, dev, 0, []);
    var before, call := calls[..|calls| - 1], calls[|calls| - 1];
    RecordsWhatIsKnown(before, dev, 0, []);
    if DeviceKnown(before, dev) {
      CountsAlways(before, dev);
      StepCounts(After(before)[dev], call, BuffersOn(before, dev));
      if call.BufferConstruct? {
        OwnerRecorded(before, dev, call.owner);
      }
    } else {
      NoneOnUnknown(before, dev);
      FreshCounts();
    }
  }

  lemma FreshCounts()
    ensures CountsTo(Device(NO_BOS, 0, 0, []), 0)
  {
  }

  /**
   After any sequence of calls a device's active and peak counts are the number of buffers logged for
   it, on the device and in its contexts: nothing ever decrements.  From 2^32 buffers on the active
   count wraps and the peak stays at 2^32 - 1.
   */
  lemma BuffersAlwaysSound(calls: seq<Call>, dev: nat)
    requires DeviceKnown(calls, dev)
    ensures dev in After(calls)
    ensures var d, n := After(calls)[dev], BuffersOn(calls, dev);
      && d.active == n % U32 && d.peak == Min(n, U32 - 1)
      && (n < U32 ==> d.active == d.peak == BufferCount(d) == n)
  {
    hide After, DeviceKnown, BuffersOn, BufferCount;
    CountsAlways(calls, dev);
  }

  // ----- Kernel runs -----

  /** Event i completes the run that event j started: the run's last start, not completed in between. */
  predicate Paired(trace: seq<Exec>, j: nat, i: nat) {
    && j < i < |trace| && trace[j].state.New? && trace[i].state.Completed? && trace[j].run == trace[i].run
    && forall m | j < m < i && trace[m].run == trace[j].run :: trace[m].state.OtherState?
  }

  /** Event j started a run that is still going. */
  predicate Running(trace: seq<Exec>, run: nat, j: nat) {
    && j < |trace| && trace[j].state.New? && trace[j].run == run
    && forall m | j < m < |trace| && trace[m].run == run :: trace[m].state.OtherState?
  }

  /** The pairs of a trace, and the time they took. */
  ghost function PairedRuns(trace: seq<Exec>): nat {
    if trace == [] then 0
    else
      var n := |trace| - 1;
      PairedRuns(trace[..n]) + if Completes(trace, n) then 1 else 0
  }

  ghost predicate Completes(trace: seq<Exec>, i: nat) { exists j: nat :: Paired(trace, j, i) }

  ghost function StartOf(trace: seq<Exec>, i: nat): (j: nat)
    requires Completes(trace, i)
    ensures Paired(trace, j, i)
  {
    var j: nat :| Paired(trace, j, i);
    j
  }

  ghost function PairedTime(trace: seq<Exec>): int {
    if trace == [] then 0
    else
      var n := |trace| - 1;
      PairedTime(trace[..n]) + if Completes(trace, n) then Micros(trace[n].now - trace[StartOf(trace, n)].now) else 0
  }

  /** The time the pairs of a trace took, in nanoseconds. */
  ghost function PairedNanos(trace: seq<Exec>): int {
    if trace == [] then 0
    else
      var n := |trace| - 1;
      PairedNanos(trace[..n]) + if Completes(trace, n) then trace[n].now - trace[StartOf(trace, n)].now else 0
  }

  /** The recorded time is in microseconds, off by less than one for each pair. */
  lemma {:induction false} PairedTimeIsMicros(trace: seq<Exec>)
    ensures -999 * PairedRuns(trace) <= PairedNanos(trace) - 1000 * PairedTime(trace) <= 999 * PairedRuns(trace)
  {
    hide Paired, Micros, Completes;
    if trace != [] {
      var n := |trace| - 1;
      PairedTimeIsMicros(trace[..n]);
      if Completes(trace, n) {
        assert StartOf(trace, n) < |trace| by { PairedNat(trace, StartOf(trace, n), n); }
        var ns := trace[n].now - trace[StartOf(trace, n)].now;
        MicrosIs(ns);
        MicrosIs(-ns);
      }
    }
  }

  function LogAll(k: Kernel, trace: seq<Exec>): Kernel {
    if trace == [] then k else LogExec(LogAll(k, trace[..|trace| - 1]), trace[|trace| - 1])
  }

  predicate Valid(k: Kernel, run: nat) { run in k.execTimes && k.execTimes[run].valid }

  /** The kernel's table of start times tracks the runs still going. */
  ghost predicate Tracks(k: Kernel, trace: seq<Exec>) {
    && (forall run | Valid(k, run) :: exists j: nat :: Running(trace, run, j))
    && (forall run: nat, j: nat | Running(trace, run, j) :: Valid(k, run) && k.execTimes[run].start == trace[j].now)
  }

  lemma RunningExtends(trace: seq<Exec>, e: Exec, run: nat, j: nat)
    ensures Running(trace + [e], run, j) <==>
            if e.run == run && !e.state.OtherState? then e.state.New? && j == |trace| else Running(trace, run, j)
    ensures Running(trace, run, j) ==> j < |trace|
  {
    var t := trace + [e];
    assert t[|trace|] == e;
    assert forall m | 0 <= m < |trace| :: t[m] == trace[m];
  }

  lemma PairedIsRunning(trace: seq<Exec>, e: Exec, j: nat)
    ensures Paired(trace + [e], j, |trace|) <==> e.state.Completed? && Running(trace, e.run, j)
  {
    var t := trace + [e];
    assert t[|trace|] == e;
    assert forall m | 0 <= m < |trace| :: t[m] == trace[m];
  }

  lemma TracksExtends(k: Kernel, trace: seq<Exec>, e: Exec)
    requires Tracks(k, trace)
    ensures Tracks(LogExec(k, e), trace + [e])
  {
    hide Running, Micros;
    var k' := LogExec(k, e);
    forall run: nat, j: nat
      ensures Running(trace + [e], run, j) <==>
              if e.run == run && !e.state.OtherState? then e.state.New? && j == |trace| else Running(trace, run, j)
      ensures Running(trace, run, j) ==> j < |trace|
    {
      RunningExtends(trace, e, run, j);
    }
    forall run | Valid(k', run) ensures exists j: nat :: Running(trace + [e], run, j) {
      if e.run == run && e.state.New? {
        assert Running(trace + [e], run, |trace|);
      } else {
        assert Valid(k, run);
        var j: nat :| Running(trace, run, j);
        assert Running(trace + [e], run, j);
      }
    }
  }

  /** One event: what it adds to the pairs is what the kernel counts for it. */
  lemma ExecCounts(k: Kernel, trace: seq<Exec>, e: Exec)
    requires Tracks(k, trace)
    ensures var k', t := LogExec(k, e), trace + [e];
      if Completes(t, |trace|) then
        k'.runs == (k.runs + 1) % U32 && k'.time == k.time + Micros(e.now - t[StartOf(t, |trace|)].now)
      else k'.runs == k.runs && k'.time == k.time
  {
    hide Running, Paired, Micros;
    var t := trace + [e];
    forall j: nat ensures Paired(t, j, |trace|) <==> e.state.Completed? && Running(trace, e.run, j) {
      PairedIsRunning(trace, e, j);
    }
    if e.state.Completed? && Valid(k, e.run) {
      var j: nat :| Running(trace, e.run, j);
      assert Paired(t, j, |trace|);
    }
    if Completes(t, |trace|) {
      var j := StartOf(t, |trace|);
      assert Running(trace, e.run, j);
      PairedNat(t, j, |trace|);
    }
  }

  lemma {:induction false} KernelCountsPairs(name: string, args: nat, trace: seq<Exec>)
    ensures var k := LogAll(NewKernel(name, args), trace);
      && Tracks(k, trace) && k.name == name && k.numArgs == args
      && k.runs == PairedRuns(trace) % U32 && k.time == PairedTime(trace)
  {
    hide Running, Tracks, Completes, Micros;
    if trace == [] {
      NothingTracked(name, args);
    } else {
      var n := |trace| - 1;
      var before, e := trace[..n], trace[n];
      assert trace == before + [e];
      KernelCountsPairs(name, args, before);
      var k := LogAll(NewKernel(name, args), before);
      TracksExtends(k, before, e);
      ExecCounts(k, before, e);
      AddMod32(PairedRuns(before), 1);
      hide LogExec;
      LogExecName(k, e);
    }
  }

  lemma NothingTracked(name: string, args: nat)
    ensures Tracks(NewKernel(name, args), [])
  {
    hide Running;
    forall run: nat, j: nat ensures !Running([], run, j) {
      NotRunning(run, j);
    }
  }

  lemma NotRunning(run: nat, j: nat)
    ensures !Running([], run, j)
  {
  }

  lemma PairedNat(trace: seq<Exec>, j: nat, i: nat)
    requires Paired(trace, j, i)
    ensures j < i < |trace|
  {
  }

  // ----- Which events reach a kernel -----

  /** The run events for a kernel that were logged once the kernel itself had been. */
  ghost function Heard(calls: seq<Call>, dev: nat, handle: nat, name: string): seq<Exec> {
    if calls == [] then []
    else
      var before, call := calls[..|calls| - 1], calls[|calls| - 1];
      Heard(before, dev, handle, name)
      + if call.KernelRun? && call.dev == dev && call.handle == handle && call.name == name
           && KernelKnown(before, dev, handle, name)
        then [call.exec] else []
  }

  /** The argument count given when the kernel was first logged. */
  ghost function LoggedArgs(calls: seq<Call>, dev: nat, handle: nat, name: string): nat {
    if calls == [] then 0
    else
      var before, call := calls[..|calls| - 1], calls[|calls| - 1];
      if call.KernelInfo? && call.dev == dev && call.handle == handle && call.name == name
         && CtxKnown(before, dev, handle) && !KernelKnown(before, dev, handle, name)
      then call.args else LoggedArgs(before, dev, handle, name)
  }

  /**
   After any sequence of calls, exactly the known kernels are recorded; a kernel's argument count is
   that of its first logging, and its run count and total time are those of the start/completed pairs
   among the run events since then.
   */
  lemma KernelRunsArePairs(calls: seq<Call>, dev: nat, handle: nat, name: string)
    ensures KernelOf(After(calls), dev, handle, name).Some? <==> KernelKnown(calls, dev, handle, name)
    ensures match KernelOf(After(calls), dev, handle, name)
      case None => Heard(calls, dev, handle, name) == []
      case Some(k) =>
        var heard := Heard(calls, dev, handle, name);
        && k.name == name && k.numArgs == LoggedArgs(calls, dev, handle, name)
        && k.runs == PairedRuns(heard) % U32 && k.time == PairedTime(heard)
  {
    hide LogAll, PairedRuns, PairedTime, KernelKnown, KernelOf, Heard, LoggedArgs, After;
    RecordsWhatIsKnown(calls, dev, handle, name);
    KernelHistory(calls, dev, handle, name);
    KernelCountsPairs(name, LoggedArgs(calls, dev, handle, name), Heard(calls, dev, handle, name));
  }

  lemma {:induction false} KernelHistory(calls: seq<Call>, dev: nat, handle: nat, name: string)
    ensures var heard, args := Heard(calls, dev, handle, name), LoggedArgs(calls, dev, handle, name);
      match KernelOf(After(calls), dev, handle, name)
      case None => heard == []
      case Some(k) => k == LogAll(NewKernel(name, args), heard)
  {
    hide StepDevice, LogExec, KernelIn, KernelKnown, CtxKnown, BosIn, Count;
    if calls != [] {
      var before, call := calls[..|calls| - 1], calls[|calls| - 1];
      KernelHistory(before, dev, handle, name);
      RecordsWhatIsKnown(before, dev, handle, name);
      var m, heard := After(before), Heard(before, dev, handle, name);
      assert heard + [] == heard;
      if call.dev == dev && dev in m {
        StepKernel(m[dev], call, handle, name);
        if call.KernelRun? {
          assert (heard + [call.exec])[..|heard|] == heard;
        }
      } else {
        FreshDevice(None, handle, name);
      }
    }
  }
}
