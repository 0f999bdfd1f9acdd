/** The ASID-over-MIDI wire format: constants and tables, the two update
    encodings as functions of a chip's contents, and the receiving side as a
    pure decoder. */
module AsidProtocol {
  import opened Common

  const SYSEX_START: Byte := 0xf0
  const SYSEX_MAN_ID: Byte := 0x2d
  const SYSEX_STOP: Byte := 0xf7

  const CHIPS := 2
  const NUM_REGS := 25
  const MAX_SID_REG := 24
  const BUFFER_SIZE := 256
  const IRQ_FLUSH_THRESHOLD := 256

  const UPDATE: seq<Byte> := [0x4e, 0x50]
  const UPDATE_REG: seq<Byte> := [0x6c, 0x6d]

  /** The packing order: position in an update to register number. */
  const REGMAP: seq<nat> := [
    0,  1,  2,  3,  5,  6,  7,  8,  9,  10, 12, 13, 14,
    15, 16, 17, 19, 20, 21, 22, 23, 24, 4,  11, 18
  ]

  /** The bits of each register that a write can change. */
  const REGMASK: seq<Byte> := [
    255, 255, 255, 15, 255, 255, 255, 255,
    255, 255, 15, 255, 255, 255, 255, 255,
    255, 15, 255, 255, 255, 7, 255, 255, 255
  ]

  function Masked(reg: nat, b: Byte): Byte
    requires reg < NUM_REGS
  {
    ((REGMASK[reg] as bv8) & (b as bv8)) as int
  }

  /** Masking keeps the low four bits of the pulse-width high bytes, the low three
      of the filter cutoff low byte, and every other byte whole. */
  lemma WritableBits(reg: nat, b: Byte)
    requires reg < NUM_REGS
    ensures Masked(reg, b) == if reg == 3 || reg == 10 || reg == 17 then b % 16 else if reg == 21 then b % 8 else b
  {
    var x := b as bv8;
    ByteValue(b);
    Low4(x);
    Low3(x);
    Low8(x);
    MaskOf(reg);
  }

  lemma MaskOf(reg: nat)
    requires reg < NUM_REGS
    ensures REGMASK[reg] == if reg == 3 || reg == 10 || reg == 17 then 15 else if reg == 21 then 7 else 255
  {
  }

  lemma Low4(x: bv8)
    ensures (15 & x) as int == (x as int) % 16
  {
  }

  lemma Low3(x: bv8)
    ensures (7 & x) as int == (x as int) % 8
  {
  }

  lemma Low8(x: bv8)
    ensures 255 & x == x
  {
  }

  /** The voice control registers, which carry the gate bit. */
  predicate IsControl(reg: nat) {
    reg == 4 || reg == 11 || reg == 18
  }

  /** One chip's shadow: register contents and which of them are unsent. */
  datatype Chip = Chip(regs: seq<Byte>, dirty: seq<bool>) {
    ghost predicate Valid() {
      |regs| == NUM_REGS && |dirty| == NUM_REGS
    }

    ghost predicate AnyDirty()
      requires Valid()
    {
      exists r :: 0 <= r < NUM_REGS && dirty[r]
    }
  }

  /** The register at position i of the packing order (`PackingOrder` ties this
      formula to the table). */
  function RegAt(i: nat): (r: nat)
    requires i < NUM_REGS
    ensures r < NUM_REGS
  {
    if i < 4 then i else if i < 10 then i + 1 else if i < 16 then i + 2
    else if i < 22 then i + 3 else if i == 22 then 4 else if i == 23 then 11 else 18
  }

  type Reg = r: int | 0 <= r < 25

  datatype Write = Write(reg: Reg, val: Byte)

  /** The writes an update must carry, from position i of the packing order on. */
  function Writes(c: Chip, i: nat): (ws: seq<Write>)
    requires c.Valid() && i <= NUM_REGS
    ensures |ws| <= NUM_REGS - i
    decreases NUM_REGS - i, c
  {
    if i == NUM_REGS then []
    else if c.dirty[RegAt(i)] then [Write(RegAt(i), c.regs[RegAt(i)])] + Writes(c, i + 1)
    else Writes(c, i + 1)
  }

  // ---- Encoding -----------------------------------------------------------

  function High(val: Byte): int {
    if val > 0x7f then 1 else 0
  }

  /** (register, value) pairs.  The value's top bit travels as bit 6 of its register
      number, which stays below 64, so `|= 1 << 6` adds 64. */
  function Pairs(ws: seq<Write>): (bytes: seq<Byte>)
    ensures |bytes| == 2 * |ws|
  {
    if ws == [] then []
    else [ws[0].reg + 64 * High(ws[0].val), ws[0].val % 128] + Pairs(ws[1..])
  }

  function Payload(ws: seq<Write>): (bytes: seq<Byte>)
    ensures |bytes| == |ws|
  {
    if ws == [] then [] else [ws[0].val % 128] + Payload(ws[1..])
  }

  /** Bit k is set iff the register at packing position i + k is dirty. */
  function Mask(c: Chip, i: nat): (m: nat)
    requires c.Valid() && i <= NUM_REGS
    ensures m < Power(2, NUM_REGS - i)
    decreases NUM_REGS - i, c
  {
    if i == NUM_REGS then 0
    else (if c.dirty[RegAt(i)] then 1 else 0) + 2 * Mask(c, i + 1)
  }

  /** Bit k is set iff moreover that register's top bit is set. */
  function Msb(c: Chip, i: nat): (m: nat)
    requires c.Valid() && i <= NUM_REGS
    ensures m < Power(2, NUM_REGS - i)
    decreases NUM_REGS - i, c
  {
    if i == NUM_REGS then 0
    else (if c.dirty[RegAt(i)] then High(c.regs[RegAt(i)]) else 0) + 2 * Msb(c, i + 1)
  }

  /** n bytes of seven bits each, least significant first. */
  function Groups(m: nat, n: nat): (bytes: seq<Byte>)
    ensures |bytes| == n
  {
    if n == 0 then [] else [m % 128] + Groups(m / 128, n - 1)
  }

  function Prefix(opcode: Byte): seq<Byte> {
    [SYSEX_START, SYSEX_MAN_ID, opcode]
  }

  function ShortForm(chip: nat, c: Chip): (bytes: seq<Byte>)
    requires chip < CHIPS && c.Valid()
    ensures |bytes| == 4 + 2 * |Writes(c, 0)|
  {
    Prefix(UPDATE_REG[chip]) + Pairs(Writes(c, 0)) + [SYSEX_STOP]
  }

  function StandardForm(chip: nat, c: Chip): (bytes: seq<Byte>)
    requires chip < CHIPS && c.Valid()
    ensures |bytes| == 12 + |Writes(c, 0)|
  {
    Prefix(UPDATE[chip]) + Groups(Mask(c, 0), 4) + Groups(Msb(c, 0), 4)
      + Payload(Writes(c, 0)) + [SYSEX_STOP]
  }

  // ---- The receiving side ---------------------------------------------------

  function DecodePairs(bytes: seq<Byte>): Option<seq<Write>> {
    if bytes == [] then Some([])
    else if |bytes| == 1 || bytes[0] >= 128 || bytes[1] >= 128 || bytes[0] % 64 >= NUM_REGS then None
    else match DecodePairs(bytes[2..])
      case None => None
      case Some(ws) => Some([Write(bytes[0] % 64, bytes[1] + 128 * (bytes[0] / 64))] + ws)
  }

  function Ungroup(bytes: seq<Byte>): nat {
    if bytes == [] then 0 else bytes[0] + 128 * Ungroup(bytes[1..])
  }

  /** One payload byte per set mask bit, in packing order. */
  function DecodePacked(mask: nat, msb: nat, i: nat, payload: seq<Byte>): Option<seq<Write>>
    requires i <= NUM_REGS
    decreases NUM_REGS - i, mask
  {
    if i == NUM_REGS then (if mask == 0 && payload == [] then Some([]) else None)
    else if mask % 2 == 0 then DecodePacked(mask / 2, msb / 2, i + 1, payload)
    else if payload == [] || payload[0] >= 128 then None
    else match DecodePacked(mask / 2, msb / 2, i + 1, payload[1..])
      case None => None
      case Some(ws) => Some([Write(RegAt(i), payload[0] + 128 * (msb % 2))] + ws)
  }

  datatype Update = Update(chip: nat, writes: seq<Write>)

  /** What a receiver reads out of one SysEx message; None if it is not a
      well-formed register update. */
  function Decode(msg: seq<Byte>): Option<Update> {
    if |msg| < 4 || msg[0] != SYSEX_START || msg[1] != SYSEX_MAN_ID || Last(msg) != SYSEX_STOP then None
    else
      var body := msg[3..|msg| - 1];
      if msg[2] in UPDATE_REG then
        match DecodePairs(body)
        case None => None
        case Some(ws) => Some(Update(if msg[2] == UPDATE_REG[0] then 0 else 1, ws))
      else if msg[2] in UPDATE && |body| >= 8 then
        match DecodePacked(Ungroup(body[..4]), Ungroup(body[4..8]), 0, body[8..])
        case None => None
        case Some(ws) => Some(Update(if msg[2] == UPDATE[0] then 0 else 1, ws))
      else None
  }

  // ---- Packing order --------------------------------------------------------

  /** Where a register sits in the packing order. */
  function Position(reg: nat): nat {
    if reg == 4 then 22 else if reg == 11 then 23 else if reg == 18 then 24
    else if reg < 4 then reg else if reg < 11 then reg - 1
    else if reg < 18 then reg - 2 else reg - 3
  }

  /** The packing order is a permutation of the registers that puts the control
      registers, and only them, in the last three places. */
  lemma PackingOrder(i: nat)
    requires i < NUM_REGS
    ensures REGMAP[i] == RegAt(i) && Position(RegAt(i)) == i
    ensures Position(i) < NUM_REGS && RegAt(Position(i)) == i
    ensures IsControl(RegAt(i)) <==> i >= 22
  {
  }

  /** Apart from that the order is that of the register numbers. */
  lemma PackingAscends(i: nat, j: nat)
    requires i < j < NUM_REGS && (j < 22 || 22 <= i)
    ensures REGMAP[i] < REGMAP[j]
  {
    PackingOrder(i);
    PackingOrder(j);
  }

  /** An update carries each dirty register exactly once with its current value,
      in packing order, and nothing else. */
  lemma {:induction false} WritesInOrder(c: Chip, i: nat)
    requires c.Valid() && i <= NUM_REGS
    ensures forall w :: w in Writes(c, i) ==> c.dirty[w.reg] && w.val == c.regs[w.reg] && Position(w.reg) >= i
    ensures forall r :: 0 <= r < NUM_REGS && c.dirty[r] && Position(r) >= i ==> Write(r, c.regs[r]) in Writes(c, i)
    ensures forall j, k :: 0 <= j < k < |Writes(c, i)| ==> Position(Writes(c, i)[j].reg) < Position(Writes(c, i)[k].reg)
    decreases NUM_REGS - i
  {
    if i == NUM_REGS {
      forall r | 0 <= r < NUM_REGS ensures Position(r) < NUM_REGS { PackingOrder(r); }
    } else {
      WritesInOrder(c, i + 1);
      PackingOrder(i);
      forall r | 0 <= r < NUM_REGS && Position(r) >= i ensures r == RegAt(i) || Position(r) >= i + 1 {
        PackingOrder(r);
      }
    }
  }

  lemma NothingToWrite(c: Chip)
    requires c.Valid()
    ensures Writes(c, 0) == [] <==> !c.AnyDirty()
  {
    WritesInOrder(c, 0);
    if c.AnyDirty() {
      var r :| 0 <= r < NUM_REGS && c.dirty[r];
      assert Write(r, c.regs[r]) in Writes(c, 0);
    }
    if Writes(c, 0) != [] {
      var w := Writes(c, 0)[0];
      assert w in Writes(c, 0);
      assert c.AnyDirty();
    }
  }

  // ---- Both forms mean the same ---------------------------------------------

  lemma {:induction false} PairsRoundTrip(ws: seq<Write>)
    ensures DecodePairs(Pairs(ws)) == Some(ws)
  {
    if ws != [] {
      PairsRoundTrip(ws[1..]);
      assert Pairs(ws)[2..] == Pairs(ws[1..]);
      assert ws == [ws[0]] + ws[1..];
    }
  }

  lemma {:induction false} GroupsRoundTrip(m: nat, n: nat)
    requires m < Power(128, n)
    ensures Ungroup(Groups(m, n)) == m
  {
    if n > 0 {
      GroupsRoundTrip(m / 128, n - 1);
      assert Groups(m, n)[1..] == Groups(m / 128, n - 1);
    }
  }

  /** The 25-bit mask fits the four seven-bit groups of the header. */
  lemma PowersExplicit()
    ensures Power(2, NUM_REGS) == 0x200_0000 && Power(128, 4) == 0x1000_0000
  {
    assert Power(2, 5) == 32;
    assert Power(2, 10) == 32 * Power(2, 5);
    assert Power(2, 15) == 32 * Power(2, 10);
    assert Power(2, 20) == 32 * Power(2, 15);
  }

  lemma {:induction false} PackedRoundTrip(c: Chip, i: nat)
    requires c.Valid() && i <= NUM_REGS
    ensures DecodePacked(Mask(c, i), Msb(c, i), i, Payload(Writes(c, i))) == Some(Writes(c, i))
    decreases NUM_REGS - i
  {
    if i < NUM_REGS {
      PackedRoundTrip(c, i + 1);
      var mask, msb, ws := Mask(c, i + 1), Msb(c, i + 1), Writes(c, i + 1);
      var dirty, val := c.dirty[RegAt(i)], c.regs[RegAt(i)];
      PackedStep(mask, msb, i, ws, dirty, val);
    }
  }

  /** Decoding undoes one packing step. */
  lemma PackedStep(mask: nat, msb: nat, i: nat, ws: seq<Write>, dirty: bool, val: Byte)
    requires i < NUM_REGS
    requires DecodePacked(mask, msb, i + 1, Payload(ws)) == Some(ws)
    ensures !dirty ==> DecodePacked(2 * mask, 2 * msb, i, Payload(ws)) == Some(ws)
    ensures dirty ==>
      var ws' := [Write(RegAt(i), val)] + ws;
      DecodePacked(1 + 2 * mask, High(val) + 2 * msb, i, Payload(ws')) == Some(ws')
  {
    if dirty {
      var ws' := [Write(RegAt(i), val)] + ws;
      assert ws'[1..] == ws;
      assert Payload(ws') == [val % 128] + Payload(ws);
      SetBit(1 + 2 * mask, High(val) + 2 * msb, mask, msb, i, val % 128, Payload(ws), ws);
    } else {
      ClearBit(2 * mask, 2 * msb, mask, msb, i, Payload(ws));
    }
  }

  lemma ClearBit(mask': nat, msb': nat, mask: nat, msb: nat, i: nat, payload: seq<Byte>)
    requires i < NUM_REGS && mask' == 2 * mask && msb' == 2 * msb
    ensures DecodePacked(mask', msb', i, payload) == DecodePacked(mask, msb, i + 1, payload)
  {
  }

  lemma SetBit(mask': nat, msb': nat, mask: nat, msb: nat, i: nat, low: Byte, payload: seq<Byte>, ws: seq<Write>)
    requires i < NUM_REGS && low < 128 && mask' == 1 + 2 * mask && 2 * msb <= msb' <= 1 + 2 * msb
    requires DecodePacked(mask, msb, i + 1, payload) == Some(ws)
    ensures DecodePacked(mask', msb', i, [low] + payload) == Some([Write(RegAt(i), low + 128 * (msb' - 2 * msb))] + ws)
  {
    assert mask' % 2 == 1 && mask' / 2 == mask && msb' / 2 == msb && msb' % 2 == msb' - 2 * msb;
    assert ([low] + payload)[1..] == payload;
  }

  lemma ShortFormDecodes(chip: nat, c: Chip)
    requires chip < CHIPS && c.Valid()
    ensures Decode(ShortForm(chip, c)) == Some(Update(chip, Writes(c, 0)))
  {
    var msg := ShortForm(chip, c);
    PairsRoundTrip(Writes(c, 0));
    assert msg[3..|msg| - 1] == Pairs(Writes(c, 0));
  }

  lemma StandardFormDecodes(chip: nat, c: Chip)
    requires chip < CHIPS && c.Valid()
    ensures Decode(StandardForm(chip, c)) == Some(Update(chip, Writes(c, 0)))
  {
    var msg, mask, msb, payload := StandardForm(chip, c), Mask(c, 0), Msb(c, 0), Payload(Writes(c, 0));
    var body := msg[3..|msg| - 1];
    var groups := Groups(mask, 4) + Groups(msb, 4);
    assert body == groups + payload;
    assert body[..4] == Groups(mask, 4) && body[4..8] == Groups(msb, 4) && body[8..] == payload;
    assert Power(2, NUM_REGS) <= Power(128, 4) by { PowersExplicit(); }
    GroupsRoundTrip(mask, 4);
    GroupsRoundTrip(msb, 4);
    PackedRoundTrip(c, 0);
  }

  /** For every dirty set and register contents, both encodings decode to the
      same ordered writes for the same chip. */
  lemma FormsAgree(chip: nat, c: Chip)
    requires chip < CHIPS && c.Valid()
    ensures Decode(ShortForm(chip, c)) == Decode(StandardForm(chip, c)) == Some(Update(chip, Writes(c, 0)))
  {
    ShortFormDecodes(chip, c);
    StandardFormDecodes(chip, c);
  }
}
