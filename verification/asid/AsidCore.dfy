/** The codec as the program has it: working buffers, register shadow and dirty
    flags rewritten in place, proved against the state machine of AsidModel. */
module AsidCore {
  import opened Common
  import opened AsidProtocol
  import opened AsidModel
  import opened AsidDump

  /** The MIDI transport behind the emit callback.  The adapter narrows the
      message length to eight bits before sending. */
  class MidiQueue {
    var sent: seq<Message>

    constructor ()
      ensures sent == []
    {
      sent := [];
    }

    method Emit(chip: nat, msg: seq<Byte>, nsec: nat)
      modifies this
      ensures sent == old(sent) + [Message(chip, msg[..|msg| % 0x100], nsec)]
      ensures |msg| < 0x100 ==> sent == old(sent) + [Message(chip, msg, nsec)]
    {
      var len := |msg| % 0x100;
      assert |msg| < 0x100 ==> msg[..len] == msg;
      sent := sent + [Message(chip, msg[..len], nsec)];
    }
  }

  /** `buf[t++] = b` */
  method Put(buf: array<Byte>, t: nat, b: Byte) returns (t': nat)
    requires t < buf.Length
    modifies buf
    ensures t' == t + 1 && buf[..t'] == old(buf[..t]) + [b]
  {
    buf[t] := b;
    t' := t + 1;
  }

  /** The first three bytes of both buffers are seeded once and never rewritten. */
  class ChipState {
    const updateBuffer: array<Byte>
    const updateRegBuffer: array<Byte>
    const sidRegister: array<Byte>
    const sidModified: array<bool>
    var sidModifiedFlag: bool
    ghost const repr: set<object>

    ghost predicate Shaped()
      reads {}
    {
      && repr == {this, updateBuffer, updateRegBuffer, sidRegister, sidModified}
      && updateBuffer != updateRegBuffer && updateBuffer != sidRegister && updateRegBuffer != sidRegister
      && updateBuffer.Length == updateRegBuffer.Length == BUFFER_SIZE
      && sidRegister.Length == sidModified.Length == NUM_REGS
    }

    ghost function Shadow(): (c: Chip)
      requires Shaped()
      reads sidRegister, sidModified
      ensures c.Valid()
    {
      Chip(sidRegister[..], sidModified[..])
    }

    ghost predicate Valid(chip: nat)
      requires chip < CHIPS
      reads repr
    {
      && Shaped()
      && updateBuffer[..3] == Prefix(UPDATE[chip])
      && updateRegBuffer[..3] == Prefix(UPDATE_REG[chip])
      && (sidModifiedFlag <==> Shadow().AnyDirty())
    }

    constructor (chip: nat)
      requires chip < CHIPS
      ensures Valid(chip) && fresh(repr)
      ensures Shadow() == Chip(Blank(), AllClean())
    {
      updateBuffer := new Byte[BUFFER_SIZE](_ => 0);
      updateRegBuffer := new Byte[BUFFER_SIZE](_ => 0);
      sidRegister := new Byte[NUM_REGS](_ => 0);
      sidModified := new bool[NUM_REGS](_ => false);
      sidModifiedFlag := false;
      repr := {this, updateBuffer, updateRegBuffer, sidRegister, sidModified};
      new;
      updateBuffer[0], updateBuffer[1], updateBuffer[2] := SYSEX_START, SYSEX_MAN_ID, UPDATE[chip];
      updateRegBuffer[0], updateRegBuffer[1], updateRegBuffer[2] := SYSEX_START, SYSEX_MAN_ID, UPDATE_REG[chip];
      assert sidRegister[..] == Blank();
      assert sidModified[..] == AllClean();
    }

    /** The register at packing position i, if dirty, as a (register, value)
        pair; bit 6 of a register number is clear, so `|= 1 << 6` adds 64.  The
        ghost `rest` is what is still to come. */
    method PutPair(t: nat, i: nat, ghost rest: seq<Byte>, ghost c: Chip) returns (t': nat, ghost rest': seq<Byte>)
      requires Shaped() && i < NUM_REGS && c == Shadow()
      requires rest == Pairs(Writes(c, i)) && t + |rest| < BUFFER_SIZE
      modifies updateRegBuffer
      ensures rest' == Pairs(Writes(c, i + 1))
      ensures t' + |rest'| == t + |rest|
      ensures updateRegBuffer[..t'] + rest' == old(updateRegBuffer[..t]) + rest
    {
      PackingOrder(i);
      PairsNext(c, i);
      rest' := Pairs(Writes(c, i + 1));
      var reg := REGMAP[i];
      t' := t;
      if sidModified[reg] {
        var val := sidRegister[reg];
        var enc := reg;
        if val > 0x7f {
          enc := enc + 64;
        }
        t' := Put(updateRegBuffer, t', enc);
        t' := Put(updateRegBuffer, t', val % 128);
      }
      assert updateRegBuffer[..t'] == old(updateRegBuffer[..t]) + PairAt(c, i);
      Regroup(old(updateRegBuffer[..t]), PairAt(c, i), rest');
    }

    /** The per-register form, built from byte 3 on. */
    method EncodePairs(chip: nat) returns (t: nat)
      requires chip < CHIPS && Valid(chip)
      modifies updateRegBuffer
      ensures t <= 54 && updateRegBuffer[..t] == ShortForm(chip, Shadow())
    {
      ghost var c := Shadow();
      ghost var all := Pairs(Writes(c, 0));
      ghost var rest := all;
      t := 3;
      for i := 0 to NUM_REGS
        invariant rest == Pairs(Writes(c, i))
        invariant t == 3 + |all| - |rest|
        invariant updateRegBuffer[..t] + rest == Prefix(UPDATE_REG[chip]) + all
      {
        t, rest := PutPair(t, i, rest, c);
      }
      t := Put(updateRegBuffer, t, SYSEX_STOP);
    }

    /** One register's share of the standard form: its payload byte at p, its
        bit in both words.  `mask |= 1u << i` sets a bit that is still clear, so
        it adds 2^i. */
    method PackRegister(i: nat, p: nat, mask: nat, msb: nat, ghost rest: seq<Byte>, ghost c: Chip)
      returns (p': nat, mask': nat, msb': nat, ghost rest': seq<Byte>)
      requires Shaped() && i < NUM_REGS && c == Shadow()
      requires rest == Payload(Writes(c, i)) && 11 <= p && p + |rest| < BUFFER_SIZE
      modifies updateBuffer
      ensures rest' == Payload(Writes(c, i + 1))
      ensures 11 <= p' && p' + |rest'| == p + |rest|
      ensures updateBuffer[..p'] + rest' == old(updateBuffer[..p]) + rest
      ensures mask' + Above(c, i + 1).0 == mask + Above(c, i).0
      ensures msb' + Above(c, i + 1).1 == msb + Above(c, i).1
    {
      PackingOrder(i);
      PayloadNext(c, i);
      rest' := Payload(Writes(c, i + 1));
      p', mask', msb' := p, mask, msb;
      var reg, bit := REGMAP[i], Power(2, i);
      MaskNext(c, i);
      MsbNext(c, i);
      if sidModified[reg] {
        var val := sidRegister[reg];
        mask' := mask' + bit;
        if val > 0x7f {
          msb' := msb' + bit;
        }
        p' := Put(updateBuffer, p', val % 128);
      }
    }

    /** Four seven-bit groups of a word at m; the rest of the buffer stays. */
    method PutGroups(m: nat, word: nat)
      requires Shaped() && m + 4 <= BUFFER_SIZE
      modifies updateBuffer
      ensures updateBuffer[..] == old(updateBuffer[..m]) + Groups(word, 4) + old(updateBuffer[m + 4..])
    {
      var w, k := word, m;
      for i := 0 to 4
        invariant k == m + i
        invariant updateBuffer[..k] + Groups(w, 4 - i) == old(updateBuffer[..m]) + Groups(word, 4)
        invariant updateBuffer[k..] == old(updateBuffer[k..])
      {
        ghost var done := updateBuffer[..k];
        updateBuffer[k] := w % 128;
        w, k := w / 128, k + 1;
        assert updateBuffer[..k] == done + [updateBuffer[k - 1]];
      }
      assert updateBuffer[..] == updateBuffer[..k] + updateBuffer[k..];
    }

    /** The payload from byte 11 on, and the two header words. */
    method PackRegisters() returns (p: nat, mask: nat, msb: nat)
      requires Shaped()
      modifies updateBuffer
      ensures mask == Mask(Shadow(), 0) && msb == Msb(Shadow(), 0)
      ensures p == 11 + |Writes(Shadow(), 0)|
      ensures updateBuffer[..p] == old(updateBuffer[..11]) + Payload(Writes(Shadow(), 0))
    {
      ghost var c := Shadow();
      ghost var rest := Payload(Writes(c, 0));
      ghost var all := rest;
      mask, msb, p := 0, 0, 11;
      AboveEnds(c);
      for i := 0 to NUM_REGS
        invariant rest == Payload(Writes(c, i))
        invariant 11 <= p && p + |rest| == 11 + |all|
        invariant updateBuffer[..p] + rest == old(updateBuffer[..11]) + all
        invariant mask + Above(c, i).0 == Mask(c, 0) && msb + Above(c, i).1 == Msb(c, 0)
      {
        p, mask, msb, rest := PackRegister(i, p, mask, msb, rest, c);
      }
    }

    /** The standard form: eight header bytes after the prefix, then the payload. */
    method EncodePacked(chip: nat) returns (p: nat)
      requires chip < CHIPS && Valid(chip)
      modifies updateBuffer
      ensures p <= 37 && updateBuffer[..p] == StandardForm(chip, Shadow())
    {
      var mask, msb;
      p, mask, msb := PackRegisters();
      ghost var packed := updateBuffer[..];
      PutGroups(3, mask);
      PutGroups(7, msb);
      Splice(packed, Groups(mask, 4), Groups(msb, 4), p, updateBuffer[..]);
      Splice3(packed, p, Prefix(UPDATE[chip]), Payload(Writes(Shadow(), 0)));
      p := Put(updateBuffer, p, SYSEX_STOP);
    }

    /** memset of the dirty flags */
    method ClearModified(chip: nat)
      requires chip < CHIPS && Valid(chip)
      modifies sidModified, this
      ensures Valid(chip) && Shadow() == Clean(old(Shadow()))
    {
      sidModifiedFlag := false;
      forall r | 0 <= r < NUM_REGS { sidModified[r] := false; }
      assert sidModified[..] == AllClean();
    }

    /** Build both forms of the pending update, then mark everything sent. */
    method BuildForms(chip: nat) returns (t: nat, p: nat)
      requires chip < CHIPS && Valid(chip)
      modifies repr
      ensures Valid(chip) && Shadow() == Clean(old(Shadow()))
      ensures t <= 54 && updateRegBuffer[..t] == ShortForm(chip, old(Shadow()))
      ensures p <= 37 && updateBuffer[..p] == StandardForm(chip, old(Shadow()))
    {
      t := EncodePairs(chip);
      ghost var short := updateRegBuffer[..t];
      assert updateRegBuffer[..3] == short[..3];
      p := EncodePacked(chip);
      ghost var standard := updateBuffer[..p];
      assert updateBuffer[..3] == standard[..3];
      ClearModified(chip);
    }

    method StoreRegister(chip: nat, reg: nat, val: Byte)
      requires chip < CHIPS && Valid(chip) && reg < NUM_REGS
      modifies sidRegister, sidModified, this
      ensures Valid(chip)
      ensures Shadow() == Chip(old(Shadow().regs)[reg := val], old(Shadow().dirty)[reg := true])
    {
      sidRegister[reg] := val;
      sidModified[reg] := true;
      sidModifiedFlag := true;
      assert Shadow().dirty[reg];
    }
  }

  /** asid_core_t */
  class AsidCodec {
    const chips: seq<ChipState>
    const useUpdateReg: bool
    var bytesSaved: nat

    ghost predicate Shaped()
      reads {}
    {
      && |chips| == CHIPS && chips[0].Shaped() && chips[1].Shaped()
      && chips[0].repr !! chips[1].repr && this !in chips[0].repr && this !in chips[1].repr
    }

    ghost function Footprint(): set<object>
      requires Shaped()
      reads {}
    {
      {this} + chips[0].repr + chips[1].repr
    }

    ghost predicate Valid()
      reads this, if Shaped() then Footprint() else {}
    {
      Shaped() && chips[0].Valid(0) && chips[1].Valid(1)
    }

    /** The state machine's view, with the messages emitted so far. */
    ghost function View(queue: MidiQueue): (s: Codec)
      requires Shaped()
      reads Footprint(), queue
      ensures s.Valid()
    {
      Codec([chips[0].Shadow(), chips[1].Shadow()], useUpdateReg, bytesSaved, queue.sent)
    }

    constructor (useUpdateReg: bool)
      ensures Valid() && fresh(Footprint())
      ensures this.useUpdateReg == useUpdateReg && bytesSaved == 0
      ensures chips[0].Shadow() == chips[1].Shadow() == Chip(Blank(), AllClean())
    {
      var c0 := new ChipState(0);
      var c1 := new ChipState(1);
      chips := [c0, c1];
      this.useUpdateReg := useUpdateReg;
      bytesSaved := 0;
    }

    /** Build both forms of the chip's update and clear its dirty set. */
    method Build(chip: nat, ghost queue: MidiQueue) returns (t: nat, p: nat)
      requires Valid() && queue !in Footprint() && chip < CHIPS
      modifies chips[chip].repr
      ensures Valid()
      ensures var s, s' := old(View(queue)), View(queue);
        s' == s.(chips := s.chips[chip := Clean(s.chips[chip])])
      ensures t <= 54 && chips[chip].updateRegBuffer[..t] == ShortForm(chip, old(View(queue)).chips[chip])
      ensures p <= 37 && chips[chip].updateBuffer[..p] == StandardForm(chip, old(View(queue)).chips[chip])
    {
      t, p := chips[chip].BuildForms(chip);
    }

    /** Send the shorter permitted form and credit what it saved. */
    method Send(chip: nat, t: nat, p: nat, nsec: nat, queue: MidiQueue, ghost c: Chip)
      requires Valid() && queue !in Footprint() && chip < CHIPS && c.Valid()
      requires t <= 54 && chips[chip].updateRegBuffer[..t] == ShortForm(chip, c)
      requires p <= 37 && chips[chip].updateBuffer[..p] == StandardForm(chip, c)
      modifies this, queue
      ensures Valid()
      ensures var s := old(View(queue));
        View(queue) == Codec(s.chips, s.useUpdateReg, Credit(s.bytesSaved, s.useUpdateReg, c),
                             s.sent + [Message(chip, Encode(s.useUpdateReg, chip, c), nsec)])
    {
      SizesAgree(chip, c);
      if useUpdateReg && t < p {
        var msg := chips[chip].updateRegBuffer[..t];
        queue.Emit(chip, msg, nsec);
        bytesSaved := (bytesSaved + (p - t)) % TWO32;
      } else {
        var msg := chips[chip].updateBuffer[..p];
        queue.Emit(chip, msg, nsec);
      }
    }

    method Flush(chip: nat, nsec: nat, queue: MidiQueue)
      requires Valid() && queue !in Footprint()
      modifies Footprint(), queue
      ensures Valid() && View(queue) == AsidModel.Flush(old(View(queue)), chip, nsec)
    {
      if chip < CHIPS && chips[chip].sidModifiedFlag {
        ghost var c := View(queue).chips[chip];
        var t, p := Build(chip, queue);
        Send(chip, t, p, nsec, queue, c);
      }
    }

    /** The forced flush of set_reg: nothing happens unless the register is a control
        register whose last value is still unsent. */
    method Settle(chip: nat, reg: nat, queue: MidiQueue)
      requires Valid() && queue !in Footprint() && chip < CHIPS && reg < NUM_REGS
      modifies Footprint(), queue
      ensures Valid() && View(queue) == Settled(old(View(queue)), chip, reg)
    {
      if (reg == 4 || reg == 11 || reg == 18) && chips[chip].sidModified[reg] {
        Flush(chip, 0, queue);
      }
    }

    method SetReg(chip: nat, reg: nat, b: Byte, queue: MidiQueue)
      requires Valid() && queue !in Footprint()
      modifies Footprint(), queue
      ensures Valid() && View(queue) == AsidModel.SetReg(old(View(queue)), chip, reg, b)
    {
      if chip >= CHIPS || reg >= NUM_REGS {
        return;
      }
      var val := Masked(reg, b);
      if chips[chip].sidRegister[reg] == val {
        return;
      }
      Settle(chip, reg, queue);
      StoreRegister(chip, reg, val, queue);
    }

    method StoreRegister(chip: nat, reg: nat, val: Byte, ghost queue: MidiQueue)
      requires Valid() && queue !in Footprint() && chip < CHIPS && reg < NUM_REGS
      modifies chips[chip].repr
      ensures Valid() && View(queue) == Store(old(View(queue)), chip, reg, val)
    {
      chips[chip].StoreRegister(chip, reg, val);
    }
  }

  /** The sound device: the codec and each chip's interrupt timing. */
  class AsidDevice {
    const asid: AsidCodec
    const queue: MidiQueue
    const lastIrq: array<nat>
    const startClock: array<nat>

    ghost predicate Valid()
      reads this, asid, lastIrq, startClock, if asid.Shaped() then asid.Footprint() else {}
    {
      && asid.Valid() && queue !in asid.Footprint() && this !in asid.Footprint()
      && lastIrq !in asid.Footprint() && startClock !in asid.Footprint()
      && lastIrq != startClock && lastIrq.Length == startClock.Length == CHIPS
    }

    ghost function View(): (d: Device)
      requires Valid()
      reads this, lastIrq, startClock, asid.Footprint(), queue
      ensures d.Valid()
    {
      Device(asid.View(queue), lastIrq[..], startClock[..])
    }

    constructor (useUpdateReg: bool)
      ensures Valid() && View() == Open(useUpdateReg)
    {
      asid := new AsidCodec(useUpdateReg);
      queue := new MidiQueue();
      lastIrq := new nat[CHIPS](_ => 0);
      startClock := new nat[CHIPS](_ => 0);
    }

    /** asid_dump2; the schedule time arrives as call.nsec. */
    method OnWrite(call: Call)
      requires Valid()
      modifies lastIrq, startClock, asid.Footprint(), queue
      ensures Valid() && View() == Dump2(old(View()), call)
    {
      if call.chip >= CHIPS {
        return;
      }
      if ShouldFlushOnIrq(call.irqClk, lastIrq[call.chip]) {
        if startClock[call.chip] == 0 {
          startClock[call.chip] := call.now;
        }
        lastIrq[call.chip] := call.irqClk;
        asid.Flush(call.chip, call.nsec, queue);
        assert View() == EnterWindow(old(View()), call);
      }
      var reg := call.addr % 32;
      if reg > MAX_SID_REG {
        return;
      }
      asid.SetReg(call.chip, reg, call.byte, queue);
    }
  }

  /** Overwriting two four-byte fields after a three-byte prefix. */
  lemma Splice(buf: seq<Byte>, g: seq<Byte>, h: seq<Byte>, p: nat, buf': seq<Byte>)
    requires |g| == |h| == 4 && 11 <= p <= |buf|
    requires var mid := buf[..3] + g + buf[7..]; buf' == mid[..7] + h + mid[11..]
    ensures |buf'| == |buf| && buf'[..p] == buf[..3] + g + h + buf[11..p]
  {
    var mid := buf[..3] + g + buf[7..];
    assert mid[..7] == buf[..3] + g && mid[11..] == buf[11..];
  }

  lemma Splice3(buf: seq<Byte>, p: nat, prefix: seq<Byte>, payload: seq<Byte>)
    requires |prefix| == 3 && 11 <= p <= |buf| && |payload| == p - 11
    requires buf[..3] == prefix && buf[..p] == buf[..11] + payload
    ensures buf[11..p] == payload
  {
    assert buf[11..p] == buf[..p][11..];
  }

  lemma SizesAgree(chip: nat, c: Chip)
    requires chip < CHIPS && c.Valid()
    ensures |ShortForm(chip, c)| == |ShortForm(0, c)| && |StandardForm(chip, c)| == |StandardForm(0, c)|
  {
  }

  /** What packing position i and those after it contribute to the two words. */
  ghost function Above(c: Chip, i: nat): (int, int)
    requires c.Valid() && i <= NUM_REGS
  {
    (Power(2, i) * Mask(c, i), Power(2, i) * Msb(c, i))
  }

  lemma AboveEnds(c: Chip)
    requires c.Valid()
    ensures Above(c, 0) == (Mask(c, 0), Msb(c, 0)) && Above(c, NUM_REGS) == (0, 0)
  {
  }

  /** What packing position i contributes to the per-register form. */
  function PairAt(c: Chip, i: nat): seq<Byte>
    requires c.Valid() && i < NUM_REGS
  {
    var reg := RegAt(i);
    if c.dirty[reg] then [reg + 64 * High(c.regs[reg]), c.regs[reg] % 128] else []
  }

  lemma PairsNext(c: Chip, i: nat)
    requires c.Valid() && i < NUM_REGS
    ensures Pairs(Writes(c, i)) == PairAt(c, i) + Pairs(Writes(c, i + 1))
  {
    if c.dirty[RegAt(i)] {
      assert Writes(c, i)[1..] == Writes(c, i + 1);
    }
  }

  lemma PayloadNext(c: Chip, i: nat)
    requires c.Valid() && i < NUM_REGS
    ensures var reg := RegAt(i);
      Payload(Writes(c, i)) == (if c.dirty[reg] then [c.regs[reg] % 128] else []) + Payload(Writes(c, i + 1))
  {
    if c.dirty[RegAt(i)] {
      assert Writes(c, i)[1..] == Writes(c, i + 1);
    }
  }

  lemma MaskNext(c: Chip, i: nat)
    requires c.Valid() && i < NUM_REGS
    ensures Power(2, i) * Mask(c, i) == (if c.dirty[RegAt(i)] then Power(2, i) else 0) + Power(2, i + 1) * Mask(c, i + 1)
  {
    Distribute(Power(2, i), if c.dirty[RegAt(i)] then 1 else 0, Mask(c, i + 1));
  }

  lemma MsbNext(c: Chip, i: nat)
    requires c.Valid() && i < NUM_REGS
    ensures Power(2, i) * Msb(c, i) ==
      (if c.dirty[RegAt(i)] && c.regs[RegAt(i)] > 0x7f then Power(2, i) else 0) + Power(2, i + 1) * Msb(c, i + 1)
  {
    Distribute(Power(2, i), if c.dirty[RegAt(i)] then High(c.regs[RegAt(i)]) else 0, Msb(c, i + 1));
  }

  lemma Distribute(p: int, bit: int, rest: int)
    requires bit == 0 || bit == 1
    ensures p * (bit + 2 * rest) == (if bit == 1 then p else 0) + (2 * p) * rest
  {
  }
}
