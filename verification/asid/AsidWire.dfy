/** The bytes of both update messages, as the protocol document lays them out. */
module AsidWire {
  import opened Common
  import opened AsidProtocol

  // ---- Pairs --------------------------------------------------------------------

  lemma {:induction false} PairAt(ws: seq<Write>, k: nat)
    requires k < |ws|
    ensures Pairs(ws)[2 * k] == ws[k].reg + (if ws[k].val >= 128 then 64 else 0)
    ensures Pairs(ws)[2 * k + 1] == ws[k].val % 128
    decreases k
  {
    if k > 0 {
      PairAt(ws[1..], k - 1);
    }
  }

  /** Start, manufacturer, command and end bytes of a message of this length. */
  ghost predicate Framed(msg: seq<Byte>, command: Byte, length: nat) {
    |msg| == length >= 4 && msg[0] == 0xf0 && msg[1] == 0x2d && msg[2] == command && msg[length - 1] == 0xf7
  }

  /** The per-register message: the command is 0x6c or 0x6d; each dirty register takes a
      byte with its number, plus 64 if its value has bit 7 set, and a byte with the
      other seven bits. */
  lemma ShortFormBytes(chip: nat, c: Chip, k: nat)
    requires chip < CHIPS && c.Valid()
    ensures var msg, ws := ShortForm(chip, c), Writes(c, 0);
      && Framed(msg, if chip == 0 then 0x6c else 0x6d, 4 + 2 * |ws|)
      && (k < |ws| ==>
            && msg[3 + 2 * k] == ws[k].reg + (if ws[k].val >= 128 then 64 else 0)
            && msg[4 + 2 * k] == ws[k].val % 128)
  {
    var msg, ws := ShortForm(chip, c), Writes(c, 0);
    if k < |ws| {
      PairAt(ws, k);
      assert msg[3 + 2 * k] == Pairs(ws)[2 * k] && msg[4 + 2 * k] == Pairs(ws)[2 * k + 1];
    }
  }

  // ---- Bits -----------------------------------------------------------------------

  /** Bit i of a number. */
  function Bit(m: nat, i: nat): bool {
    if i == 0 then m % 2 == 1 else Bit(m / 2, i - 1)
  }

  lemma HalfMask(c: Chip, j: nat)
    requires c.Valid() && j < NUM_REGS
    ensures Mask(c, j) / 2 == Mask(c, j + 1) && Msb(c, j) / 2 == Msb(c, j + 1)
    ensures Mask(c, j) % 2 == 1 <==> c.dirty[RegAt(j)]
    ensures Msb(c, j) % 2 == 1 <==> c.dirty[RegAt(j)] && c.regs[RegAt(j)] >= 128
  {
    LowBit(if c.dirty[RegAt(j)] then 1 else 0, Mask(c, j + 1));
    LowBit(if c.dirty[RegAt(j)] then High(c.regs[RegAt(j)]) else 0, Msb(c, j + 1));
  }

  lemma LowBit(bit: nat, rest: nat)
    requires bit < 2
    ensures (bit + 2 * rest) / 2 == rest && (bit + 2 * rest) % 2 == bit
  {
  }

  lemma {:induction false} MaskBits(c: Chip, j: nat, i: nat)
    requires c.Valid() && j <= i < NUM_REGS
    ensures Bit(Mask(c, j), i - j) <==> c.dirty[RegAt(i)]
    ensures Bit(Msb(c, j), i - j) <==> c.dirty[RegAt(i)] && c.regs[RegAt(i)] >= 128
    decreases i - j, c
  {
    HalfMask(c, j);
    if j < i {
      MaskBits(c, j + 1, i);
    }
  }

  lemma HalfOfRemainder(m: nat, p: nat)
    requires p > 0
    ensures (m % (2 * p)) / 2 == (m / 2) % p && (m % (2 * p)) % 2 == m % 2
  {
    var q, r := m / 2 / p, m / 2 % p;
    assert m / 2 == q * p + r;
    assert m == (2 * q) * p + (2 * r + m % 2) == q * (2 * p) + (2 * r + m % 2);
    QuotientIs(m, 2 * p, q, 2 * r + m % 2);
  }

  lemma {:induction false} BitOfRemainder(m: nat, n: nat, k: nat)
    requires k < n
    ensures Bit(m % Power(2, n), k) == Bit(m, k)
    decreases n, m
  {
    HalfOfRemainder(m, Power(2, n - 1));
    if k > 0 {
      BitOfRemainder(m / 2, n - 1, k - 1);
    }
  }

  lemma SevenUp(m: nat, i: nat)
    ensures Bit(m, i + 7) == Bit(m / 128, i)
  {
    var m1 := m / 2;
    var m2 := m1 / 2;
    var m3 := m2 / 2;
    var m4 := m3 / 2;
    var m5 := m4 / 2;
    var m6 := m5 / 2;
    assert m6 / 2 == m / 128;
    assert Bit(m, i + 7) == Bit(m1, i + 6) == Bit(m2, i + 5) == Bit(m3, i + 4);
    assert Bit(m3, i + 4) == Bit(m4, i + 3) == Bit(m5, i + 2) == Bit(m6, i + 1) == Bit(m6 / 2, i);
  }

  lemma {:induction false} GroupBit(m: nat, n: nat, g: nat, k: nat)
    requires g < n && k < 7
    ensures Bit(Groups(m, n)[g], k) == Bit(m, 7 * g + k)
    decreases g
  {
    if g == 0 {
      assert Power(2, 7) == 128;
      BitOfRemainder(m, 7, k);
    } else {
      GroupBit(m / 128, n - 1, g - 1, k);
      SevenUp(m, 7 * (g - 1) + k);
    }
  }

  lemma {:induction false} PayloadAt(ws: seq<Write>, k: nat)
    requires k < |ws|
    ensures Payload(ws)[k] == ws[k].val % 128
    decreases k
  {
    if k > 0 {
      PayloadAt(ws[1..], k - 1);
    }
  }

  /** The standard message: the command is 0x4e or 0x50; four bytes say, seven to a byte
      from the lowest bit up, which registers of the packing order are dirty; four
      more likewise which of those have bit 7 set; then comes a byte with the other
      seven bits of each. */
  lemma StandardFormBytes(chip: nat, c: Chip, i: nat, k: nat)
    requires chip < CHIPS && c.Valid() && i < 25
    ensures var msg, ws := StandardForm(chip, c), Writes(c, 0);
      && Framed(msg, if chip == 0 then 0x4e else 0x50, 12 + |ws|)
      && (Bit(msg[3 + i / 7], i % 7) <==> c.dirty[REGMAP[i]])
      && (Bit(msg[7 + i / 7], i % 7) <==> c.dirty[REGMAP[i]] && c.regs[REGMAP[i]] >= 128)
      && (k < |ws| ==> msg[11 + k] == ws[k].val % 128)
  {
    var msg, ws := StandardForm(chip, c), Writes(c, 0);
    PackingOrder(i);
    MaskBits(c, 0, i);
    GroupBit(Mask(c, 0), 4, i / 7, i % 7);
    GroupBit(Msb(c, 0), 4, i / 7, i % 7);
    assert msg[3 + i / 7] == Groups(Mask(c, 0), 4)[i / 7] && msg[7 + i / 7] == Groups(Msb(c, 0), 4)[i / 7];
    if k < |ws| {
      PayloadAt(ws, k);
      assert msg[11 + k] == Payload(ws)[k];
    }
  }
}
