/** The sound device's per-write callback: it flushes the previous interrupt's
    writes when the interrupt clock has moved on, then records the new one. */
module AsidDump {
  import opened Common
  import opened AsidProtocol
  import opened AsidModel

  /** One callback.  `nsec` stands for the schedule time computed from the clocks
      in floating point; `now` is the host clock. */
  datatype Call = Call(irqClk: nat, now: nat, nsec: nat, chip: nat, addr: nat, byte: Byte)

  datatype Device = Device(codec: Codec, lastIrq: seq<nat>, startClock: seq<nat>) {
    ghost predicate Valid() {
      codec.Valid() && |lastIrq| == CHIPS && |startClock| == CHIPS
    }
  }

  /** The difference is taken on uint64_t. */
  predicate ShouldFlushOnIrq(irqClk: nat, lastIrq: nat) {
    (irqClk - lastIrq) % TWO64 > IRQ_FLUSH_THRESHOLD
  }

  ghost function Open(useUpdateReg: bool): Device {
    Device(Start(useUpdateReg), [0, 0], [0, 0])
  }

  /** Entering a new window: flush what the previous one left. */
  ghost function EnterWindow(d: Device, call: Call): (d': Device)
    requires d.Valid() && call.chip < CHIPS
    ensures d'.Valid()
  {
    Device(Flush(d.codec, call.chip, call.nsec),
           d.lastIrq[call.chip := call.irqClk],
           if d.startClock[call.chip] == 0 then d.startClock[call.chip := call.now] else d.startClock)
  }

  ghost function Dump2(d: Device, call: Call): (d': Device)
    requires d.Valid()
    ensures d'.Valid()
  {
    if call.chip >= CHIPS then d
    else
      var d1 := if ShouldFlushOnIrq(call.irqClk, d.lastIrq[call.chip]) then EnterWindow(d, call) else d;
      if call.addr % 32 > MAX_SID_REG then d1
      else d1.(codec := SetReg(d1.codec, call.chip, call.addr % 32, call.byte))
  }

  ghost function RunCalls(useUpdateReg: bool, calls: seq<Call>): (d: Device)
    ensures d.Valid()
  {
    if calls == [] then Open(useUpdateReg) else Dump2(RunCalls(useUpdateReg, Init(calls)), Last(calls))
  }

  // ---- Windows and writes, read off the calls alone --------------------------

  /** Does a call open a new window for a chip last flushed at `lastIrq`? */
  predicate Opens(lastIrq: nat, call: Call, chip: nat) {
    call.chip == chip && ShouldFlushOnIrq(call.irqClk, lastIrq)
  }

  /** The interrupt clock the chip's current window was opened with. */
  function LastIrq(calls: seq<Call>, chip: nat): nat {
    if calls == [] then 0
    else
      var before := LastIrq(Init(calls), chip);
      if Opens(before, Last(calls), chip) then Last(calls).irqClk else before
  }

  /** How many windows the chip has entered. */
  function Window(calls: seq<Call>, chip: nat): nat {
    if calls == [] then 0
    else Window(Init(calls), chip) + if Opens(LastIrq(Init(calls), chip), Last(calls), chip) then 1 else 0
  }

  datatype Stamped = Stamped(val: Byte, window: nat)

  function Held(history: seq<Stamped>): Byte {
    if history == [] then 0 else Last(history).val
  }

  /** The value-changing masked writes to a register, each with the window it was
      recorded in. */
  function History(calls: seq<Call>, chip: nat, reg: nat): seq<Stamped>
    requires reg < NUM_REGS
  {
    if calls == [] then []
    else
      var before, call := History(Init(calls), chip, reg), Last(calls);
      if call.chip == chip && call.addr % 32 == reg && Masked(reg, call.byte) != Held(before)
      then before + [Stamped(Masked(reg, call.byte), Window(calls, chip))]
      else before
  }

  // ---- Separation -------------------------------------------------------------

  /** The shadow holds the latest values, and whatever is still unsent was
      recorded in the chip's current window. */
  ghost predicate UpToDate(d: Device, calls: seq<Call>, chip: nat, reg: nat)
    requires d.Valid() && chip < CHIPS && reg < NUM_REGS
  {
    var c, h := d.codec.chips[chip], History(calls, chip, reg);
    && c.regs[reg] == Held(h)
    && (c.dirty[reg] ==> h != [] && Last(h) == Stamped(c.regs[reg], Window(calls, chip)))
  }

  ghost predicate InWindow(d: Device, calls: seq<Call>)
    requires d.Valid()
  {
    && Mirrors(d.codec)
    && (forall chip :: 0 <= chip < CHIPS ==> d.lastIrq[chip] == LastIrq(calls, chip))
    && (forall chip, reg :: 0 <= chip < CHIPS && 0 <= reg < NUM_REGS ==> UpToDate(d, calls, chip, reg))
  }

  /** Everything the message carries was recorded in the given window and is
      still the register's latest value. */
  ghost predicate FromWindow(m: Message, calls: seq<Call>, window: nat) {
    forall w :: w in WritesFor(m, m.chip) ==>
      var h := History(calls, m.chip, w.reg);
      h != [] && Last(h) == Stamped(w.val, window)
  }

  /** What a flush sends comes from the window in force before it. */
  lemma FlushFromWindow(d: Device, calls: seq<Call>, chip: nat, nsec: nat)
    requires d.Valid() && InWindow(d, calls) && chip < CHIPS
    ensures var s' := Flush(d.codec, chip, nsec);
      s'.sent == d.codec.sent ||
      (s'.sent == d.codec.sent + [Last(s'.sent)] && Last(s'.sent).chip == chip && FromWindow(Last(s'.sent), calls, Window(calls, chip)))
  {
    var s' := Flush(d.codec, chip, nsec);
    if s'.sent != d.codec.sent {
      var c := d.codec.chips[chip];
      FormsAgree(chip, c);
      WritesInOrder(c, 0);
      forall w | w in Writes(c, 0)
        ensures var h := History(calls, chip, w.reg); h != [] && Last(h) == Stamped(w.val, Window(calls, chip))
      {
        assert UpToDate(d, calls, chip, w.reg);
      }
    }
  }

  lemma SetRegEffect(s: Codec, chip: nat, reg: nat, b: Byte, k: nat, r: nat)
    requires s.Valid() && k < CHIPS && r < NUM_REGS
    ensures var c, c', here := s.chips[k], SetReg(s, chip, reg, b).chips[k], k == chip && r == reg;
      && c'.regs[r] == (if here then Masked(r, b) else c.regs[r])
      && (c'.dirty[r] ==> c.dirty[r] || (here && Masked(r, b) != c.regs[r]))
  {
  }

  lemma EnterWindowEffect(d: Device, call: Call, k: nat, r: nat)
    requires d.Valid() && call.chip < CHIPS && k < CHIPS && r < NUM_REGS
    ensures var c, c' := d.codec.chips[k], EnterWindow(d, call).codec.chips[k];
      c'.regs[r] == c.regs[r] && (c'.dirty[r] <==> c.dirty[r] && k != call.chip)
  {
  }

  lemma StepUpToDate(d: Device, calls: seq<Call>, call: Call, k: nat, r: nat)
    requires d.Valid() && InWindow(d, calls) && k < CHIPS && r < NUM_REGS
    ensures UpToDate(Dump2(d, call), calls + [call], k, r)
  {
    assert Init(calls + [call]) == calls && UpToDate(d, calls, k, r);
    if call.chip < CHIPS {
      var opens := ShouldFlushOnIrq(call.irqClk, d.lastIrq[call.chip]);
      var d1 := if opens then EnterWindow(d, call) else d;
      if opens {
        EnterWindowEffect(d, call, k, r);
      }
      if call.addr % 32 <= MAX_SID_REG {
        SetRegEffect(d1.codec, call.chip, call.addr % 32, call.byte, k, r);
      }
    }
  }

  lemma Dump2Mirrors(d: Device, call: Call)
    requires d.Valid() && Mirrors(d.codec)
    ensures Mirrors(Dump2(d, call).codec)
  {
    if call.chip < CHIPS {
      var d1 := if ShouldFlushOnIrq(call.irqClk, d.lastIrq[call.chip]) then EnterWindow(d, call) else d;
      FlushMirrors(d.codec, call.chip, call.nsec);
      StepMirrors(d1.codec, DoSetReg(call.chip, call.addr % 32, call.byte));
    }
  }

  lemma StepInWindow(d: Device, calls: seq<Call>, call: Call)
    requires d.Valid() && InWindow(d, calls)
    ensures InWindow(Dump2(d, call), calls + [call])
  {
    Dump2Mirrors(d, call);
    assert Init(calls + [call]) == calls;
    forall chip, reg | 0 <= chip < CHIPS && 0 <= reg < NUM_REGS
      ensures UpToDate(Dump2(d, call), calls + [call], chip, reg)
    {
      StepUpToDate(d, calls, call, chip, reg);
    }
  }

  lemma {:induction false} AlwaysInWindow(useUpdateReg: bool, calls: seq<Call>)
    ensures InWindow(RunCalls(useUpdateReg, calls), calls)
  {
    if calls != [] {
      AlwaysInWindow(useUpdateReg, Init(calls));
      StepInWindow(RunCalls(useUpdateReg, Init(calls)), Init(calls), Last(calls));
      assert Init(calls) + [Last(calls)] == calls;
    }
  }

  /** A call sends at most one message, from the window in force before it. */
  lemma AtMostOneMessage(d: Device, calls: seq<Call>, call: Call)
    requires d.Valid() && InWindow(d, calls)
    ensures var sent, sent' := d.codec.sent, Dump2(d, call).codec.sent;
      sent' == sent ||
      (&& sent' == sent + [Last(sent')] && Last(sent').chip == call.chip
       && FromWindow(Last(sent'), calls, Window(calls, call.chip)))
  {
    if call.chip < CHIPS {
      if ShouldFlushOnIrq(call.irqClk, d.lastIrq[call.chip]) {
        FlushFromWindow(d, calls, call.chip, call.nsec);
        assert Dump2(d, call).codec.sent == Flush(d.codec, call.chip, call.nsec).sent;
      } else {
        FlushFromWindow(d, calls, call.chip, 0);
      }
    }
  }

  /** When a call opens a window, the receiver then holds everything recorded
      before it. */
  lemma NewWindowStartsSynced(d: Device, calls: seq<Call>, call: Call)
    requires d.Valid() && InWindow(d, calls)
    requires call.chip < CHIPS && Opens(LastIrq(calls, call.chip), call, call.chip)
    ensures forall r :: 0 <= r < NUM_REGS ==>
      Remote(Dump2(d, call).codec.sent, call.chip)[r] == Held(History(calls, call.chip, r))
  {
    FlushMirrors(d.codec, call.chip, call.nsec);
    assert Dump2(d, call).codec.sent == Flush(d.codec, call.chip, call.nsec).sent;
    forall r | 0 <= r < NUM_REGS
      ensures d.codec.chips[call.chip].regs[r] == Held(History(calls, call.chip, r))
    {
      assert UpToDate(d, calls, call.chip, r);
    }
  }

  /** Over every sequence of callbacks: a call sends at most one message, all of
      whose writes were recorded in the window in force before the call; and a
      call that opens a window finds the receiver holding the result of every
      earlier write to the chip. */
  lemma IrqWindowsSeparate(useUpdateReg: bool, calls: seq<Call>, call: Call)
    ensures var sent, sent' := RunCalls(useUpdateReg, calls).codec.sent, RunCalls(useUpdateReg, calls + [call]).codec.sent;
      && (sent' == sent ||
          (&& sent' == sent + [Last(sent')] && Last(sent').chip == call.chip
           && FromWindow(Last(sent'), calls, Window(calls, call.chip))))
      && (call.chip < CHIPS && Opens(LastIrq(calls, call.chip), call, call.chip) ==>
          forall r :: 0 <= r < NUM_REGS ==> Remote(sent', call.chip)[r] == Held(History(calls, call.chip, r)))
  {
    var d := RunCalls(useUpdateReg, calls);
    AlwaysInWindow(useUpdateReg, calls);
    assert Init(calls + [call]) == calls;
    AtMostOneMessage(d, calls, call);
    if call.chip < CHIPS && Opens(LastIrq(calls, call.chip), call, call.chip) {
      NewWindowStartsSynced(d, calls, call);
    }
  }

  // ---- When a window ends ---------------------------------------------------------

  /** What the calls last wrote to a register. */
  function LastWritten(calls: seq<Call>, chip: nat, reg: nat): Byte
    requires reg < NUM_REGS
  {
    if calls == [] then 0
    else if Last(calls).chip == chip && Last(calls).addr % 32 == reg then Masked(reg, Last(calls).byte)
    else LastWritten(Init(calls), chip, reg)
  }

  lemma {:induction false} HeldIsLastWritten(calls: seq<Call>, chip: nat, reg: nat)
    requires reg < NUM_REGS
    ensures Held(History(calls, chip, reg)) == LastWritten(calls, chip, reg)
  {
    if calls != [] {
      HeldIsLastWritten(Init(calls), chip, reg);
    }
  }

  /** Cycles from one interrupt to another, on a 64-bit clock. */
  function Since(irqClk: nat, lastIrq: nat): int {
    (irqClk - lastIrq) % 0x1_0000_0000_0000_0000
  }

  /** The write of this call gives another value to a control register whose last one
      is unsent. */
  ghost predicate Overwrites(d: Device, call: Call)
    requires d.Valid() && call.chip < CHIPS
  {
    var reg := call.addr % 32;
    && (reg == 4 || reg == 11 || reg == 18)
    && d.codec.chips[call.chip].dirty[reg] && Masked(reg, call.byte) != d.codec.chips[call.chip].regs[reg]
  }

  /** Within 256 cycles of the last interrupt a call stays in its window. */
  lemma StaysInWindow(d: Device, call: Call)
    requires d.Valid() && call.chip < CHIPS && Since(call.irqClk, d.lastIrq[call.chip]) <= 256
    ensures var d' := Dump2(d, call);
      && d'.lastIrq == d.lastIrq && d'.startClock == d.startClock
      && (if Overwrites(d, call)
          then d'.codec.sent == d.codec.sent + [Last(d'.codec.sent)] && Last(d'.codec.sent).chip == call.chip && Last(d'.codec.sent).nsec == 0
          else d'.codec.sent == d.codec.sent)
  {
    SetRegSends(d.codec, call.chip, call.addr % 32, call.byte);
  }

  /** Beyond that it opens the next one, and sends what the chip has unsent with the
      time it is given. */
  lemma LeavesWindow(d: Device, call: Call)
    requires d.Valid() && call.chip < CHIPS && Since(call.irqClk, d.lastIrq[call.chip]) > 256
    ensures var d' := Dump2(d, call);
      && d'.lastIrq == d.lastIrq[call.chip := call.irqClk]
      && d'.startClock == (if d.startClock[call.chip] == 0 then d.startClock[call.chip := call.now] else d.startClock)
      && (if d.codec.chips[call.chip].AnyDirty()
          then d'.codec.sent == d.codec.sent + [Last(d'.codec.sent)] && Last(d'.codec.sent).chip == call.chip && Last(d'.codec.sent).nsec == call.nsec
          else d'.codec.sent == d.codec.sent)
  {
    FlushSends(d.codec, call.chip, call.nsec);
    AfterFlushNothingForced(d, call);
  }

  lemma AfterFlushNothingForced(d: Device, call: Call)
    requires d.Valid() && call.chip < CHIPS
    ensures var d1 := EnterWindow(d, call);
      SetReg(d1.codec, call.chip, call.addr % 32, call.byte).sent == d1.codec.sent
  {
    SetRegSends(EnterWindow(d, call).codec, call.chip, call.addr % 32, call.byte);
  }

  lemma NewWindowHoldsAll(d: Device, calls: seq<Call>, call: Call, r: nat)
    requires d.Valid() && InWindow(d, calls) && call.chip < CHIPS && r < NUM_REGS
    requires Since(call.irqClk, d.lastIrq[call.chip]) > 256
    ensures Remote(Dump2(d, call).codec.sent, call.chip)[r] == LastWritten(calls, call.chip, r)
  {
    assert Opens(LastIrq(calls, call.chip), call, call.chip);
    NewWindowStartsSynced(d, calls, call);
    HeldIsLastWritten(calls, call.chip, r);
  }

  ghost predicate WindowRule(d: Device, d': Device, calls: seq<Call>, call: Call)
    requires d.Valid() && d'.Valid() && call.chip < CHIPS
  {
    var cycles := Since(call.irqClk, d.lastIrq[call.chip]);
    && Since(call.irqClk, d'.lastIrq[call.chip]) <= 256
    && (cycles > 256 ==>
          && d'.lastIrq == d.lastIrq[call.chip := call.irqClk]
          && forall r :: 0 <= r < NUM_REGS ==> Remote(d'.codec.sent, call.chip)[r] == LastWritten(calls, call.chip, r))
    && (cycles <= 256 ==> d'.lastIrq == d.lastIrq && (d'.codec.sent != d.codec.sent <==> Overwrites(d, call)))
  }

  lemma WindowStep(d: Device, calls: seq<Call>, call: Call)
    requires d.Valid() && InWindow(d, calls) && call.chip < CHIPS
    ensures WindowRule(d, Dump2(d, call), calls, call)
  {
    if Since(call.irqClk, d.lastIrq[call.chip]) > 256 {
      LeavesWindow(d, call);
      forall r | 0 <= r < NUM_REGS
        ensures Remote(Dump2(d, call).codec.sent, call.chip)[r] == LastWritten(calls, call.chip, r)
      {
        NewWindowHoldsAll(d, calls, call, r);
      }
    } else {
      StaysInWindow(d, call);
    }
  }

  /** Over every sequence of callbacks, the next one leaves its chip's interrupt clock at
      most 256 cycles past the one on record.  If it comes more than 256 cycles after,
      the receiver ends up with everything the calls before it wrote; if not, the
      record stays, and only overwriting an unsent control register sends anything. */
  lemma WindowsEndAfter256Cycles(useUpdateReg: bool, calls: seq<Call>, call: Call)
    requires call.chip < CHIPS
    ensures WindowRule(RunCalls(useUpdateReg, calls), RunCalls(useUpdateReg, calls + [call]), calls, call)
  {
    assert Init(calls + [call]) == calls;
    AlwaysInWindow(useUpdateReg, calls);
    WindowStep(RunCalls(useUpdateReg, calls), calls, call);
  }

  // ---- The device runs the codec ------------------------------------------------

  /** The codec operations a callback amounts to, for a chip last flushed at
      `lastIrq`. */
  function CallOps(lastIrq: nat, call: Call): seq<Op> {
    if call.chip >= CHIPS then []
    else
      (if ShouldFlushOnIrq(call.irqClk, lastIrq) then [DoFlush(call.chip, call.nsec)] else []) +
      (if call.addr % 32 <= MAX_SID_REG then [DoSetReg(call.chip, call.addr % 32, call.byte)] else [])
  }

  function OpsOf(calls: seq<Call>): seq<Op> {
    if calls == [] then []
    else OpsOf(Init(calls)) + CallOps(LastIrq(Init(calls), Last(calls).chip), Last(calls))
  }

  lemma RunSnoc(useUpdateReg: bool, ops: seq<Op>, op: Op)
    ensures Run(useUpdateReg, ops + [op]) == Step(Run(useUpdateReg, ops), op)
  {
    assert Init(ops + [op]) == ops;
  }

  lemma CallRunsOps(useUpdateReg: bool, ops: seq<Op>, d: Device, call: Call)
    requires d.Valid() && d.codec == Run(useUpdateReg, ops)
    ensures call.chip < CHIPS ==>
      Dump2(d, call).codec == Run(useUpdateReg, ops + CallOps(d.lastIrq[call.chip], call))
    ensures call.chip >= CHIPS ==> Dump2(d, call) == d
  {
    if call.chip < CHIPS {
      var flush, store := DoFlush(call.chip, call.nsec), DoSetReg(call.chip, call.addr % 32, call.byte);
      var opens := ShouldFlushOnIrq(call.irqClk, d.lastIrq[call.chip]);
      var ops1 := if opens then ops + [flush] else ops;
      RunSnoc(useUpdateReg, ops, flush);
      RunSnoc(useUpdateReg, ops1, store);
      assert ops + CallOps(d.lastIrq[call.chip], call) == if call.addr % 32 <= MAX_SID_REG then ops1 + [store] else ops1;
    }
  }

  /** Every run of the device is, for the codec, a run of its two operations. */
  lemma {:induction false} DeviceRunsCodec(useUpdateReg: bool, calls: seq<Call>)
    ensures RunCalls(useUpdateReg, calls).codec == Run(useUpdateReg, OpsOf(calls))
  {
    if calls != [] {
      DeviceRunsCodec(useUpdateReg, Init(calls));
      AlwaysInWindow(useUpdateReg, Init(calls));
      CallRunsOps(useUpdateReg, OpsOf(Init(calls)), RunCalls(useUpdateReg, Init(calls)), Last(calls));
      assert Last(calls).chip >= CHIPS ==> OpsOf(calls) == OpsOf(Init(calls));
    }
  }

  function Values(history: seq<Stamped>): (vals: seq<Byte>)
    ensures |vals| == |history|
  {
    seq(|history|, i requires 0 <= i < |history| => history[i].val)
  }

  lemma ChangesSnoc(ops: seq<Op>, op: Op, chip: nat, reg: nat)
    requires reg < NUM_REGS
    ensures Changes(ops + [op], chip, reg) == Extend(Changes(ops, chip, reg), op, chip, reg)
  {
    assert Init(ops + [op]) == ops;
  }

  lemma CallChanges(ops: seq<Op>, lastIrq: nat, call: Call, chip: nat, reg: nat)
    requires chip < CHIPS && reg < NUM_REGS
    ensures var before := Changes(ops, chip, reg);
      Changes(ops + CallOps(lastIrq, call), chip, reg) ==
        if call.chip == chip && call.addr % 32 == reg && Masked(reg, call.byte) != Current(before)
        then before + [Masked(reg, call.byte)] else before
  {
    if call.chip < CHIPS {
      var flush, store := DoFlush(call.chip, call.nsec), DoSetReg(call.chip, call.addr % 32, call.byte);
      var ops1 := if ShouldFlushOnIrq(call.irqClk, lastIrq) then ops + [flush] else ops;
      ChangesSnoc(ops, flush, chip, reg);
      ChangesSnoc(ops1, store, chip, reg);
      assert ops + CallOps(lastIrq, call) == if call.addr % 32 <= MAX_SID_REG then ops1 + [store] else ops1;
    } else {
      assert ops + CallOps(lastIrq, call) == ops;
    }
  }

  lemma HeldIsCurrent(h: seq<Stamped>)
    ensures Held(h) == Current(Values(h))
  {
  }

  lemma ValuesSnoc(h: seq<Stamped>, last: Stamped)
    ensures Values(h + [last]) == Values(h) + [last.val]
  {
  }

  lemma HistoryStep(calls: seq<Call>, chip: nat, reg: nat, before: seq<Stamped>)
    requires calls != [] && reg < NUM_REGS && before == History(Init(calls), chip, reg)
    ensures var call, vals := Last(calls), Values(before);
      Values(History(calls, chip, reg)) ==
        if call.chip == chip && call.addr % 32 == reg && Masked(reg, call.byte) != Current(vals)
        then vals + [Masked(reg, call.byte)] else vals
  {
    HeldIsCurrent(before);
    ValuesSnoc(before, Stamped(Masked(reg, Last(calls).byte), Window(calls, chip)));
  }

  lemma OpsOfStep(calls: seq<Call>)
    requires calls != []
    ensures OpsOf(calls) == OpsOf(Init(calls)) + CallOps(LastIrq(Init(calls), Last(calls).chip), Last(calls))
  {
  }

  /** The value changes of a device run are those its calls record. */
  lemma {:induction false} ChangesOfCalls(calls: seq<Call>, ops: seq<Op>, chip: nat, reg: nat)
    requires chip < CHIPS && reg < NUM_REGS && ops == OpsOf(calls)
    ensures Changes(ops, chip, reg) == Values(History(calls, chip, reg))
    decreases |calls|
  {
    if calls != [] {
      var before := OpsOf(Init(calls));
      ChangesOfCalls(Init(calls), before, chip, reg);
      OpsOfStep(calls);
      CallChanges(before, LastIrq(Init(calls), Last(calls).chip), Last(calls), chip, reg);
      HistoryStep(calls, chip, reg, History(Init(calls), chip, reg));
    }
  }

  /** Over every run of the device no gate edge is lost, and every message is legal,
      as short as permitted and accounted for. */
  lemma DeviceLosesNothing(useUpdateReg: bool, calls: seq<Call>, chip: nat, reg: nat)
    requires chip < CHIPS && reg < NUM_REGS
    ensures var s := RunCalls(useUpdateReg, calls).codec;
      && Faithful(s, Values(History(calls, chip, reg)), chip, reg)
      && Accounted(s, useUpdateReg)
      && Mirrors(s)
  {
    DeviceRunsCodec(useUpdateReg, calls);
    ChangesOfCalls(calls, OpsOf(calls), chip, reg);
    NoGateEdgeLost(useUpdateReg, OpsOf(calls), chip, reg);
    MessagesWellFormed(useUpdateReg, OpsOf(calls));
    RemoteMirrorsShadow(useUpdateReg, OpsOf(calls));
  }
}
