/** The codec as a state machine on values, and what every run of it keeps:
    the receiver mirrors the shadow, no gate edge is lost, every message is
    legal and as short as allowed, and the saving is accounted for. */
module AsidModel {
  import opened Common
  import opened AsidProtocol

  /** One call of the emit callback. */
  datatype Message = Message(chip: nat, bytes: seq<Byte>, nsec: nat)

  datatype Codec = Codec(chips: seq<Chip>, useUpdateReg: bool, bytesSaved: nat, sent: seq<Message>) {
    ghost predicate Valid() {
      |chips| == CHIPS && forall i :: 0 <= i < CHIPS ==> chips[i].Valid()
    }
  }

  function AllClean(): (flags: seq<bool>)
    ensures |flags| == NUM_REGS && forall r :: 0 <= r < NUM_REGS ==> !flags[r]
  {
    seq(NUM_REGS, _ => false)
  }

  function Blank(): (regs: seq<Byte>)
    ensures |regs| == NUM_REGS && forall r :: 0 <= r < NUM_REGS ==> regs[r] == 0
  {
    seq(NUM_REGS, _ => 0)
  }

  function Start(useUpdateReg: bool): (s: Codec)
    ensures s.Valid()
  {
    Codec([Chip(Blank(), AllClean()), Chip(Blank(), AllClean())], useUpdateReg, 0, [])
  }

  // ---- The two operations ---------------------------------------------------

  ghost predicate UsesShortForm(useUpdateReg: bool, c: Chip)
    requires c.Valid()
  {
    useUpdateReg && |ShortForm(0, c)| < |StandardForm(0, c)|
  }

  ghost function Encode(useUpdateReg: bool, chip: nat, c: Chip): seq<Byte>
    requires chip < CHIPS && c.Valid()
  {
    if UsesShortForm(useUpdateReg, c) then ShortForm(chip, c) else StandardForm(chip, c)
  }

  /** uint32_t accumulation of what the short form saved. */
  ghost function Credit(bytesSaved: nat, useUpdateReg: bool, c: Chip): nat
    requires c.Valid()
  {
    if UsesShortForm(useUpdateReg, c)
    then (bytesSaved + |StandardForm(0, c)| - |ShortForm(0, c)|) % TWO32
    else bytesSaved
  }

  function Clean(c: Chip): Chip {
    Chip(c.regs, AllClean())
  }

  ghost function Flush(s: Codec, chip: nat, nsec: nat): (s': Codec)
    requires s.Valid()
    ensures s'.Valid()
  {
    if chip >= CHIPS || !s.chips[chip].AnyDirty() then s
    else
      Codec(s.chips[chip := Clean(s.chips[chip])], s.useUpdateReg,
            Credit(s.bytesSaved, s.useUpdateReg, s.chips[chip]),
            s.sent + [Message(chip, Encode(s.useUpdateReg, chip, s.chips[chip]), nsec)])
  }

  /** Store a value that differs from the shadow. */
  ghost function Store(s: Codec, chip: nat, reg: nat, val: Byte): (s': Codec)
    requires s.Valid() && chip < CHIPS && reg < NUM_REGS
    ensures s'.Valid()
  {
    var c := s.chips[chip];
    s.(chips := s.chips[chip := Chip(c.regs[reg := val], c.dirty[reg := true])])
  }

  /** A control register is flushed before it is overwritten while unsent. */
  ghost function Settled(s: Codec, chip: nat, reg: nat): (s': Codec)
    requires s.Valid() && chip < CHIPS && reg < NUM_REGS
    ensures s'.Valid()
  {
    if IsControl(reg) && s.chips[chip].dirty[reg] then Flush(s, chip, 0) else s
  }

  ghost function SetReg(s: Codec, chip: nat, reg: nat, b: Byte): (s': Codec)
    requires s.Valid()
    ensures s'.Valid()
  {
    if chip >= CHIPS || reg >= NUM_REGS || s.chips[chip].regs[reg] == Masked(reg, b) then s
    else Store(Settled(s, chip, reg), chip, reg, Masked(reg, b))
  }

  datatype Op = DoSetReg(chip: nat, reg: nat, byte: Byte) | DoFlush(chip: nat, nsec: nat)

  ghost function Step(s: Codec, op: Op): (s': Codec)
    requires s.Valid()
    ensures s'.Valid()
  {
    match op
    case DoSetReg(chip, reg, b) => SetReg(s, chip, reg, b)
    case DoFlush(chip, nsec) => Flush(s, chip, nsec)
  }

  ghost function Run(useUpdateReg: bool, ops: seq<Op>): (s: Codec)
    ensures s.Valid()
  {
    if ops == [] then Start(useUpdateReg) else Step(Run(useUpdateReg, Init(ops)), Last(ops))
  }

  // ---- The receiver ---------------------------------------------------------

  function Apply(regs: seq<Byte>, ws: seq<Write>): (regs': seq<Byte>)
    requires |regs| == NUM_REGS
    ensures |regs'| == NUM_REGS
    decreases |ws|
  {
    if ws == [] then regs
    else Apply(regs[ws[0].reg := ws[0].val], ws[1..])
  }

  /** The writes a message carries for the given chip. */
  function WritesFor(m: Message, chip: nat): seq<Write> {
    match Decode(m.bytes)
    case None => []
    case Some(u) => if u.chip == chip then u.writes else []
  }

  /** A remote SID, zero at power-up, after the messages have arrived in order. */
  function Remote(sent: seq<Message>, chip: nat): (regs: seq<Byte>)
    ensures |regs| == NUM_REGS
  {
    if sent == [] then Blank() else Apply(Remote(Init(sent), chip), WritesFor(Last(sent), chip))
  }

  function ValuesOf(ws: seq<Write>, reg: nat): seq<Byte> {
    if ws == [] then []
    else (if ws[0].reg == reg then [ws[0].val] else []) + ValuesOf(ws[1..], reg)
  }

  /** Every value the remote chip's register receives, in order. */
  function Applied(sent: seq<Message>, chip: nat, reg: nat): seq<Byte> {
    if sent == [] then [] else Applied(Init(sent), chip, reg) + ValuesOf(WritesFor(Last(sent), chip), reg)
  }

  // ---- What one message does to the receiver --------------------------------

  lemma {:induction false} ApplyWrites(regs: seq<Byte>, c: Chip, i: nat, r: nat)
    requires |regs| == NUM_REGS && c.Valid() && i <= NUM_REGS && r < NUM_REGS
    ensures Apply(regs, Writes(c, i))[r] == if c.dirty[r] && Position(r) >= i then c.regs[r] else regs[r]
    ensures ValuesOf(Writes(c, i), r) == if c.dirty[r] && Position(r) >= i then [c.regs[r]] else []
    decreases NUM_REGS - i
  {
    PackingOrder(r);
    if i < NUM_REGS {
      PackingOrder(i);
      var reg := RegAt(i);
      var regs' := if c.dirty[reg] then regs[reg := c.regs[reg]] else regs;
      ApplyWrites(regs', c, i + 1, r);
      if c.dirty[reg] {
        assert Writes(c, i)[1..] == Writes(c, i + 1);
      }
    }
  }

  /** The number of writes in the chip's next update. */
  ghost function Pending(c: Chip): nat
    requires c.Valid()
  {
    |Writes(c, 0)|
  }

  /** Flushing a chip makes exactly its pending registers arrive. */
  lemma FlushArrives(s: Codec, chip: nat, nsec: nat, k: nat, r: nat)
    requires s.Valid() && k < CHIPS && r < NUM_REGS
    ensures var s' := Flush(s, chip, nsec);
      var sends := chip == k && s.chips[k].dirty[r];
      && Remote(s'.sent, k)[r] == (if sends then s.chips[k].regs[r] else Remote(s.sent, k)[r])
      && Applied(s'.sent, k, r) == Applied(s.sent, k, r) + (if sends then [s.chips[k].regs[r]] else [])
  {
    var s' := Flush(s, chip, nsec);
    if s'.sent != s.sent {
      var c := s.chips[chip];
      assert Init(s'.sent) == s.sent;
      FormsAgree(chip, c);
      assert WritesFor(Last(s'.sent), chip) == Writes(c, 0);
      ApplyWrites(Remote(s.sent, k), c, 0, r);
    }
  }

  /** A flush sends one message, for its chip and with its time, exactly if something is
      unsent. */
  lemma FlushSends(s: Codec, chip: nat, nsec: nat)
    requires s.Valid()
    ensures var sent := Flush(s, chip, nsec).sent;
      if chip < 2 && s.chips[chip].AnyDirty()
      then sent == s.sent + [Last(sent)] && Last(sent).chip == chip && Last(sent).nsec == nsec
      else sent == s.sent
  {
  }

  /** A write sends something exactly if it gives a control register whose last value is
      unsent another one; then it is one message, to be played at once. */
  lemma SetRegSends(s: Codec, chip: nat, reg: nat, b: Byte)
    requires s.Valid()
    ensures var sent := SetReg(s, chip, reg, b).sent;
      if chip < 2 && (reg == 4 || reg == 11 || reg == 18) && s.chips[chip].dirty[reg] && Masked(reg, b) != s.chips[chip].regs[reg]
      then sent == s.sent + [Last(sent)] && Last(sent).chip == chip && Last(sent).nsec == 0
      else sent == s.sent
  {
  }

  // ---- Mirror ---------------------------------------------------------------

  ghost predicate Mirrors(s: Codec)
    requires s.Valid()
  {
    forall k, r :: 0 <= k < CHIPS && 0 <= r < NUM_REGS && !s.chips[k].dirty[r] ==>
      Remote(s.sent, k)[r] == s.chips[k].regs[r]
  }

  /** A flush leaves the chip clean and the receiver equal to it; the other
      chip's shadow and remote are untouched. */
  lemma FlushMirrors(s: Codec, chip: nat, nsec: nat)
    requires s.Valid() && Mirrors(s) && chip < CHIPS
    ensures var s' := Flush(s, chip, nsec);
      && Mirrors(s')
      && Remote(s'.sent, chip) == s'.chips[chip].regs == s.chips[chip].regs
      && !s'.chips[chip].AnyDirty()
      && s'.chips[1 - chip] == s.chips[1 - chip]
      && Remote(s'.sent, 1 - chip) == Remote(s.sent, 1 - chip)
  {
    var s' := Flush(s, chip, nsec);
    forall k, r | 0 <= k < CHIPS && 0 <= r < NUM_REGS
      ensures Remote(s'.sent, k)[r] == if k == chip then s.chips[k].regs[r] else Remote(s.sent, k)[r]
    {
      FlushArrives(s, chip, nsec, k, r);
    }
  }

  lemma StoreMirrors(s: Codec, chip: nat, reg: nat, val: Byte)
    requires s.Valid() && Mirrors(s) && chip < CHIPS && reg < NUM_REGS
    ensures Mirrors(Store(s, chip, reg, val))
  {
  }

  lemma StepMirrors(s: Codec, op: Op)
    requires s.Valid() && Mirrors(s)
    ensures Mirrors(Step(s, op))
  {
    match op
    case DoFlush(chip, nsec) =>
      if chip < CHIPS { FlushMirrors(s, chip, nsec); }
    case DoSetReg(chip, reg, b) =>
      if Step(s, op) != s {
        assert Mirrors(Settled(s, chip, reg)) by { FlushMirrors(s, chip, 0); }
        StoreMirrors(Settled(s, chip, reg), chip, reg, Masked(reg, b));
      }
  }

  /** Over every run, a receiver that started at zero agrees with the shadow on
      every clean register, and on all of them right after a flush. */
  lemma {:induction false} RemoteMirrorsShadow(useUpdateReg: bool, ops: seq<Op>)
    ensures Mirrors(Run(useUpdateReg, ops))
    ensures forall chip :: 0 <= chip < CHIPS && ops != [] && Last(ops).DoFlush? && Last(ops).chip == chip ==>
      Remote(Run(useUpdateReg, ops).sent, chip) == Run(useUpdateReg, ops).chips[chip].regs
  {
    if ops != [] {
      RemoteMirrorsShadow(useUpdateReg, Init(ops));
      var s := Run(useUpdateReg, Init(ops));
      StepMirrors(s, Last(ops));
      if Last(ops).DoFlush? && Last(ops).chip < CHIPS {
        FlushMirrors(s, Last(ops).chip, Last(ops).nsec);
      }
    }
  }

  // ---- Control registers last -------------------------------------------------

  /** When a write to a control register is reached, every other pending register
      has its new value. */
  lemma {:induction false} ControlsLast(regs: seq<Byte>, c: Chip, i: nat, k: nat, r: nat)
    requires |regs| == NUM_REGS && c.Valid() && i <= NUM_REGS && r < NUM_REGS && !IsControl(r)
    requires k < |Writes(c, i)| && IsControl(Writes(c, i)[k].reg)
    ensures Apply(regs, Writes(c, i)[..k])[r] == if c.dirty[r] && Position(r) >= i then c.regs[r] else regs[r]
    decreases NUM_REGS - i
  {
    PackingOrder(r);
    PackingOrder(i);
    var reg := RegAt(i);
    if !c.dirty[reg] {
      ControlsLast(regs, c, i + 1, k, r);
    } else if k == 0 {
      assert Writes(c, i)[0].reg == reg;
    } else {
      ControlsLast(regs[reg := c.regs[reg]], c, i + 1, k - 1, r);
      ApplyFirst(regs, Write(reg, c.regs[reg]), Writes(c, i + 1), k);
    }
  }

  lemma ApplyFirst(regs: seq<Byte>, w: Write, ws: seq<Write>, k: nat)
    requires |regs| == NUM_REGS && 0 < k <= |ws| + 1
    ensures Apply(regs, ([w] + ws)[..k]) == Apply(regs[w.reg := w.val], ws[..k - 1])
  {
    assert ([w] + ws)[..k] == [w] + ws[..k - 1];
    assert ([w] + ws[..k - 1])[1..] == ws[..k - 1];
  }

  /** Over every run, the message the next flush would send applies each voice's gate
      last: when the receiver comes to a control register, all the others already
      are what the shadow says, sent now or long before. */
  lemma GateAfterTheRest(useUpdateReg: bool, ops: seq<Op>, chip: nat, nsec: nat, k: nat, r: nat)
    requires chip < CHIPS && r < NUM_REGS && !IsControl(r)
    ensures var s := Run(useUpdateReg, ops);
      var c, ws := s.chips[chip], Writes(s.chips[chip], 0);
      k < |ws| && IsControl(ws[k].reg) ==>
        && Flush(s, chip, nsec).sent != []
        && WritesFor(Last(Flush(s, chip, nsec).sent), chip) == ws
        && Apply(Remote(s.sent, chip), ws[..k])[r] == c.regs[r]
  {
    var s := Run(useUpdateReg, ops);
    var c, ws := s.chips[chip], Writes(s.chips[chip], 0);
    if k < |ws| && IsControl(ws[k].reg) {
      RemoteMirrorsShadow(useUpdateReg, ops);
      ControlsLast(Remote(s.sent, chip), c, 0, k, r);
      NothingToWrite(c);
      FormsAgree(chip, c);
    }
  }

  // ---- No gate edge lost ----------------------------------------------------

  /** What a register holds after a history of value changes. */
  function Current(history: seq<Byte>): Byte {
    if history == [] then 0 else Last(history)
  }

  /** One call's contribution to a register's history of value changes. */
  function Extend(history: seq<Byte>, op: Op, chip: nat, reg: nat): seq<Byte>
    requires reg < NUM_REGS
  {
    if op.DoSetReg? && op.chip == chip && op.reg == reg && Masked(reg, op.byte) != Current(history)
    then history + [Masked(reg, op.byte)]
    else history
  }

  /** The masked writes to a register that changed its value, read off the calls
      alone. */
  function Changes(ops: seq<Op>, chip: nat, reg: nat): seq<Byte>
    requires reg < NUM_REGS
  {
    if ops == [] then [] else Extend(Changes(Init(ops), chip, reg), Last(ops), chip, reg)
  }

  /** What the receiver has seen of a register, then the value still unsent. */
  ghost function Delivered(s: Codec, chip: nat, reg: nat): seq<Byte>
    requires s.Valid() && chip < CHIPS && reg < NUM_REGS
  {
    Applied(s.sent, chip, reg) + (if s.chips[chip].dirty[reg] then [s.chips[chip].regs[reg]] else [])
  }

  ghost predicate Faithful(s: Codec, changes: seq<Byte>, chip: nat, reg: nat)
    requires s.Valid() && chip < CHIPS && reg < NUM_REGS
  {
    && s.chips[chip].regs[reg] == Current(changes) == Current(Delivered(s, chip, reg))
    && Subsequence(Delivered(s, chip, reg), changes)
    && (IsControl(reg) ==> Delivered(s, chip, reg) == changes)
    && (changes != [] ==> Delivered(s, chip, reg) != [])
  }

  /** Flushing moves the unsent value to the receiver and loses nothing. */
  lemma FlushDelivers(s: Codec, chip: nat, nsec: nat, k: nat, r: nat)
    requires s.Valid() && k < CHIPS && r < NUM_REGS
    ensures Delivered(Flush(s, chip, nsec), k, r) == Delivered(s, k, r)
    ensures Flush(s, chip, nsec).chips[k].regs == s.chips[k].regs
  {
    FlushArrives(s, chip, nsec, k, r);
  }

  lemma StoreDelivers(s: Codec, changes: seq<Byte>, k: nat, r: nat, val: Byte)
    requires s.Valid() && k < CHIPS && r < NUM_REGS && Faithful(s, changes, k, r)
    requires IsControl(r) ==> !s.chips[k].dirty[r]
    ensures Faithful(Store(s, k, r, val), changes + [val], k, r)
  {
    var applied := Applied(s.sent, k, r);
    if s.chips[k].dirty[r] {
      assert Init(Delivered(s, k, r)) == applied;
      SubsequenceOfInit(Delivered(s, k, r), changes);
    } else {
      assert Delivered(s, k, r) == applied;
    }
    SubsequenceExtend(applied, changes, val);
  }

  lemma StoreElsewhere(s: Codec, changes: seq<Byte>, k: nat, r: nat, chip: nat, reg: nat, val: Byte)
    requires s.Valid() && k < CHIPS && r < NUM_REGS && chip < CHIPS && reg < NUM_REGS
    requires Faithful(s, changes, k, r) && (chip != k || reg != r)
    ensures Faithful(Store(s, chip, reg, val), changes, k, r)
  {
    assert Delivered(Store(s, chip, reg, val), k, r) == Delivered(s, k, r);
  }

  lemma FlushFaithful(s: Codec, changes: seq<Byte>, chip: nat, nsec: nat, k: nat, r: nat)
    requires s.Valid() && k < CHIPS && r < NUM_REGS && Faithful(s, changes, k, r)
    ensures Faithful(Flush(s, chip, nsec), changes, k, r)
  {
    FlushDelivers(s, chip, nsec, k, r);
  }

  lemma SettledFaithful(s: Codec, changes: seq<Byte>, chip: nat, reg: nat, k: nat, r: nat)
    requires s.Valid() && k < CHIPS && r < NUM_REGS && chip < CHIPS && reg < NUM_REGS
    requires Faithful(s, changes, k, r)
    ensures Faithful(Settled(s, chip, reg), changes, k, r)
    ensures IsControl(reg) ==> !Settled(s, chip, reg).chips[chip].dirty[reg]
  {
    if IsControl(reg) && s.chips[chip].dirty[reg] {
      FlushFaithful(s, changes, chip, 0, k, r);
    }
  }

  lemma StepFaithful(s: Codec, changes: seq<Byte>, op: Op, k: nat, r: nat)
    requires s.Valid() && k < CHIPS && r < NUM_REGS && Faithful(s, changes, k, r)
    ensures Faithful(Step(s, op), Extend(changes, op, k, r), k, r)
  {
    match op
    case DoFlush(chip, nsec) => FlushFaithful(s, changes, chip, nsec, k, r);
    case DoSetReg(chip, reg, b) =>
      if chip < CHIPS && reg < NUM_REGS && Masked(reg, b) != s.chips[chip].regs[reg] {
        SettledFaithful(s, changes, chip, reg, k, r);
        var mid := Settled(s, chip, reg);
        if chip == k && reg == r {
          StoreDelivers(mid, changes, k, r, Masked(r, b));
        } else {
          StoreElsewhere(mid, changes, k, r, chip, reg, Masked(reg, b));
        }
      }
  }

  /** For the control registers the values the receiver applies, then the unsent
      one, are exactly the value changes in order.  For every other register they
      are a subsequence of them that ends with the latest one. */
  lemma {:induction false} NoGateEdgeLost(useUpdateReg: bool, ops: seq<Op>, chip: nat, reg: nat)
    requires chip < CHIPS && reg < NUM_REGS
    ensures Faithful(Run(useUpdateReg, ops), Changes(ops, chip, reg), chip, reg)
  {
    if ops != [] {
      NoGateEdgeLost(useUpdateReg, Init(ops), chip, reg);
      StepFaithful(Run(useUpdateReg, Init(ops)), Changes(Init(ops), chip, reg), Last(ops), chip, reg);
    }
  }

  // ---- Legal, shortest, and accounted for -----------------------------------

  /** A System Exclusive register update for the message's chip: three fixed
      bytes, seven-bit data, one final end-of-exclusive. */
  ghost predicate LegalSysEx(m: Message) {
    && m.chip < CHIPS
    && 5 < |m.bytes| <= 37
    && (m.bytes[..3] == Prefix(UPDATE[m.chip]) || m.bytes[..3] == Prefix(UPDATE_REG[m.chip]))
    && (forall i :: 3 <= i < |m.bytes| - 1 ==> m.bytes[i] < 0x80)
    && Last(m.bytes) == SYSEX_STOP
  }

  /** The number of registers an emitted message updates. */
  function Carried(m: Message): nat {
    |WritesFor(m, m.chip)|
  }

  ghost predicate Brief(m: Message) {
    |m.bytes| >= 3 && m.bytes[2] in UPDATE_REG
  }

  /** Legal, and in the short form exactly when that is enabled and pays. */
  ghost predicate WellFormed(m: Message, useUpdateReg: bool) {
    && LegalSysEx(m)
    && 1 <= Carried(m) <= NUM_REGS
    && Decode(m.bytes) == Some(Update(m.chip, WritesFor(m, m.chip)))
    && (Brief(m) <==> useUpdateReg && Carried(m) < 8)
    && |m.bytes| == (if Brief(m) then 4 + 2 * Carried(m) else 12 + Carried(m))
  }

  /** Bytes the short messages of a run saved over the standard form. */
  ghost function Saved(sent: seq<Message>): int {
    if sent == [] then 0
    else Saved(Init(sent)) + if Brief(Last(sent)) then 8 - Carried(Last(sent)) else 0
  }

  lemma {:induction false} PairsAreSevenBit(ws: seq<Write>)
    ensures forall b :: b in Pairs(ws) ==> b < 0x80
  {
    if ws != [] { PairsAreSevenBit(ws[1..]); }
  }

  lemma {:induction false} PayloadIsSevenBit(ws: seq<Write>)
    ensures forall b :: b in Payload(ws) ==> b < 0x80
  {
    if ws != [] { PayloadIsSevenBit(ws[1..]); }
  }

  lemma {:induction false} GroupsAreSevenBit(m: nat, n: nat)
    ensures forall b :: b in Groups(m, n) ==> b < 0x80
  {
    if n > 0 { GroupsAreSevenBit(m / 128, n - 1); }
  }

  lemma ShortFormLegal(chip: nat, c: Chip, nsec: nat)
    requires chip < CHIPS && c.Valid() && 1 <= Pending(c) < 8
    ensures LegalSysEx(Message(chip, ShortForm(chip, c), nsec))
    ensures ShortForm(chip, c)[2] == UPDATE_REG[chip]
  {
    WritesInOrder(c, 0);
    var msg, body := ShortForm(chip, c), Pairs(Writes(c, 0));
    PairsAreSevenBit(Writes(c, 0));
    forall i | 3 <= i < |msg| - 1 ensures msg[i] < 0x80 {
      assert msg[i] == body[i - 3];
      assert body[i - 3] in body;
    }
    assert msg[..3] == Prefix(UPDATE_REG[chip]);
  }

  lemma StandardFormLegal(chip: nat, c: Chip, nsec: nat)
    requires chip < CHIPS && c.Valid()
    ensures LegalSysEx(Message(chip, StandardForm(chip, c), nsec))
    ensures StandardForm(chip, c)[2] == UPDATE[chip]
  {
    var msg, ws := StandardForm(chip, c), Writes(c, 0);
    var body := Groups(Mask(c, 0), 4) + Groups(Msb(c, 0), 4) + Payload(ws);
    GroupsAreSevenBit(Mask(c, 0), 4);
    GroupsAreSevenBit(Msb(c, 0), 4);
    PayloadIsSevenBit(ws);
    assert forall b :: b in body ==> b < 0x80;
    assert msg == Prefix(UPDATE[chip]) + body + [SYSEX_STOP];
    forall i | 3 <= i < |msg| - 1 ensures msg[i] < 0x80 {
      assert msg[i] == body[i - 3];
      assert body[i - 3] in body;
    }
    assert msg[..3] == Prefix(UPDATE[chip]);
  }

  lemma EncodeIsWellFormed(useUpdateReg: bool, chip: nat, c: Chip, nsec: nat)
    requires chip < CHIPS && c.Valid() && Pending(c) >= 1
    ensures var m := Message(chip, Encode(useUpdateReg, chip, c), nsec);
      && WellFormed(m, useUpdateReg)
      && Carried(m) == Pending(c)
      && (Brief(m) <==> UsesShortForm(useUpdateReg, c))
  {
    FormsAgree(chip, c);
    if UsesShortForm(useUpdateReg, c) {
      ShortFormLegal(chip, c, nsec);
    } else {
      StandardFormLegal(chip, c, nsec);
    }
  }

  lemma FlushIsWellFormed(s: Codec, chip: nat, nsec: nat)
    requires s.Valid()
    ensures var s' := Flush(s, chip, nsec);
      s' == s ||
      (&& s'.sent == s.sent + [Last(s'.sent)]
       && WellFormed(Last(s'.sent), s.useUpdateReg)
       && (s'.bytesSaved == if Brief(Last(s'.sent)) then (s.bytesSaved + 8 - Carried(Last(s'.sent))) % TWO32 else s.bytesSaved))
  {
    if chip < CHIPS && s.chips[chip].AnyDirty() {
      var c := s.chips[chip];
      NothingToWrite(c);
      EncodeIsWellFormed(s.useUpdateReg, chip, c, nsec);
    }
  }

  lemma SavedStep(sent: seq<Message>, m: Message)
    ensures Saved(sent + [m]) == Saved(sent) + if Brief(m) then 8 - Carried(m) else 0
  {
    assert Init(sent + [m]) == sent;
  }

  ghost predicate Accounted(s: Codec, useUpdateReg: bool) {
    && s.useUpdateReg == useUpdateReg
    && (forall m :: m in s.sent ==> WellFormed(m, useUpdateReg))
    && s.bytesSaved == Saved(s.sent) % TWO32
  }

  lemma AccountedStep(s: Codec, s': Codec, m: Message, useUpdateReg: bool)
    requires Accounted(s, useUpdateReg) && s'.useUpdateReg == useUpdateReg
    requires s'.sent == s.sent + [m] && WellFormed(m, useUpdateReg)
    requires s'.bytesSaved == if Brief(m) then (s.bytesSaved + 8 - Carried(m)) % TWO32 else s.bytesSaved
    ensures Accounted(s', useUpdateReg)
  {
    SavedStep(s.sent, m);
  }

  lemma FlushAccounted(s: Codec, chip: nat, nsec: nat, useUpdateReg: bool)
    requires s.Valid() && Accounted(s, useUpdateReg)
    ensures Accounted(Flush(s, chip, nsec), useUpdateReg)
  {
    FlushIsWellFormed(s, chip, nsec);
    var s' := Flush(s, chip, nsec);
    if s' != s {
      AccountedStep(s, s', Last(s'.sent), useUpdateReg);
    }
  }

  /** Every message of every run is legal SysEx that fits the adapter's 8-bit
      length, uses the short form exactly when it is enabled and carries fewer
      than eight registers, and `bytes_saved` is the run's saving modulo 2^32. */
  lemma {:induction false} MessagesWellFormed(useUpdateReg: bool, ops: seq<Op>)
    ensures Accounted(Run(useUpdateReg, ops), useUpdateReg)
  {
    if ops != [] {
      MessagesWellFormed(useUpdateReg, Init(ops));
      var s, op := Run(useUpdateReg, Init(ops)), Last(ops);
      FlushAccounted(s, op.chip, if op.DoFlush? then op.nsec else 0, useUpdateReg);
    }
  }
}
