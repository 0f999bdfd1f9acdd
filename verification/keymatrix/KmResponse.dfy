/** The 24-byte status response, and what a client can read out of it. */
module KmResponse {
  import opened Common
  import opened Text
  import opened KeyList
  import opened KmModel
  import opened KmInvariants
  import opened KmReports
  import opened KmFrames

  function LeValue(b: seq<Byte>): nat {
    if b == [] then 0 else b[0] + 0x100 * LeValue(b[1..])
  }

  lemma {:induction false} LittleEndianValue(n: nat, k: nat)
    requires n < Power(0x100, k)
    ensures LeValue(LittleEndian(n, k)) == n
  {
    if k > 0 {
      LittleEndianValue(n / 0x100, k - 1);
      assert LittleEndian(n, k)[1..] == LittleEndian(n / 0x100, k - 1);
    }
  }

  lemma FieldRanges(two: nat, four: nat)
    requires two == 2 && four == 4
    ensures Power(0x100, two) == 65536 && Power(0x100, four) == TWO32
  {
    assert Power(0x100, four) == 0x1_0000 * Power(0x100, two);
  }

  /** A larger weight is an even multiple of a smaller one. */
  lemma {:induction false} PowerRatio(c: nat, n: nat) returns (half: nat)
    requires c < n
    ensures Power(2, n) == (2 * half) * Power(2, c)
    decreases n
  {
    if n == c + 1 {
      half := 1;
    } else {
      var h := PowerRatio(c, n - 1);
      half := 2 * h;
      Doubled(h, Power(2, c));
    }
  }

  lemma Doubled(h: int, w: int)
    ensures 2 * ((2 * h) * w) == (2 * (2 * h)) * w
  {
  }

  /** Adding an even multiple of d leaves the parity of the quotient by d alone. */
  lemma HigherPower(low: nat, d: nat, half: nat)
    requires d > 0
    ensures (low + (2 * half) * d) / d % 2 == low / d % 2
  {
    var q, r := low / d, low % d;
    assert low + (2 * half) * d == (q + 2 * half) * d + r;
    QuotientIs(low + (2 * half) * d, d, q + 2 * half, r);
  }

  /** Bit c of a byte that sums distinct weights. */
  lemma {:induction false} RowBitSet(bits: set<(int, int)>, row: int, n: nat, c: nat)
    requires c < n
    ensures RowBits(bits, row, n) / Power(2, c) % 2 == (if (row, c) in bits then 1 else 0)
    decreases n
  {
    var low, w := RowBits(bits, row, n - 1), Power(2, n - 1);
    if c == n - 1 {
      RowBitsBound(bits, row, n - 1);
      QuotientIs(low + w, w, 1, low);
      QuotientIs(low, w, 0, low);
    } else {
      RowBitSet(bits, row, n - 1, c);
      var half := PowerRatio(c, n - 1);
      HigherPower(low, Power(2, c), half);
    }
  }

  lemma {:induction false} MatrixRow(bits: set<(int, int)>, n: nat, r: nat)
    requires r < n
    ensures MatrixRows(bits, n)[r] == RowByte(bits, r)
  {
    if r < n - 1 { MatrixRow(bits, n - 1, r); }
  }

  /** The record of the last release fits the fields it is sent in. */
  ghost predicate RecordFits(w: World) {
    w.km.last.Some? ==>
      |w.km.last.value.keys| <= MAX_KEYS && w.km.last.value.total < TWO32 && w.km.last.value.sampling < TWO32
  }

  lemma ReleaseNowRecordFits(w: World, reason: Reason)
    requires Inv(w) && RecordFits(w)
    ensures RecordFits(ReleaseNow(w, reason))
  {
  }

  lemma ReleaseRecordFits(w: World, args: Option<CString>)
    requires Inv(w) && RecordFits(w)
    ensures RecordFits(Release(w, args))
  {
    ReleaseEffect(w, args);
    if w.km.active && !Release(w, args).km.active {
      var _ := ReleaseReports(w, args);
    } else if !w.km.active {
      assert Release(w, args).km == w.km;
    }
  }

  lemma StepRecordFits(w: World, op: Op)
    requires Inv(w) && RecordFits(w)
    ensures RecordFits(Step(w, op))
  {
    if Request(op).Some? {
      ReleaseNowRecordFits(w, Manual);
      assert Step(w, op) == Activate(w, Request(op).value);
    } else if op.ReleaseOp? {
      ReleaseRecordFits(w, op.args);
    } else if op.Fire? {
      ReleaseNowRecordFits(w, Timeout);
      ReleaseNowRecordFits(w, w.km.lastReason);
    }
  }

  lemma {:induction false} RunRecordFits(w: World, ops: seq<Op>)
    requires Inv(w) && RecordFits(w)
    ensures Inv(RunFrom(w, ops)) && RecordFits(RunFrom(w, ops))
  {
    RunInv(w, ops);
    if ops != [] {
      RunRecordFits(w, Init(ops));
      StepRecordFits(RunFrom(w, Init(ops)), Last(ops));
    }
  }

  /** What the status response is to tell: the current hold, or the last one. */
  function ToldReads(km: Injector): nat {
    if km.active || km.last.None? then km.total else km.last.value.total
  }

  function ToldSampling(km: Injector): nat {
    if km.active || km.last.None? then km.sampling else km.last.value.sampling
  }

  function ToldReason(km: Injector): Reason {
    if km.active || km.last.None? then km.lastReason else km.last.value.reason
  }

  function ToldKeys(km: Injector): seq<Key> {
    if km.active || km.last.None? then km.keys else km.last.value.keys
  }

  lemma MatrixReadsBack(w: World, r: nat, c: nat)
    requires Inv(w) && RecordFits(w) && r < 8 && c < 8
    ensures var b := Response(w);
      && (b[r] / Power(2, c) % 2 == 1 <==> (r, c) in w.host.bits)
      && (b[8] % 2 == 1 <==> (-3, 0) in w.host.bits) && (b[8] / 2 % 2 == 1 <==> (-3, 1) in w.host.bits)
      && (b[8] / 4 % 2 == 1 <==> (-4, 1) in w.host.bits) && (b[8] / 8 == 1 <==> (-4, 0) in w.host.bits)
  {
    var b := Response(w);
    MatrixRow(w.host.bits, 8, r);
    RowBitSet(w.host.bits, r, 8, c);
    assert b[8] == CustomByte(w.host.bits);
  }

  lemma HoldReadsBack(w: World)
    requires Inv(w) && RecordFits(w)
    ensures var b := HoldBytes(w);
      && LeValue(b[..4]) == ToldReads(w.km) && LeValue(b[4..8]) == ToldSampling(w.km)
      && b[8] == ReasonCode(ToldReason(w.km)) && b[9] == |ToldKeys(w.km)|
  {
    var b := HoldBytes(w);
    FieldRanges(2, 4);
    LittleEndianValue(ToldReads(w.km), 4);
    LittleEndianValue(ToldSampling(w.km), 4);
    assert b[..4] == LittleEndian(ToldReads(w.km), 4) && b[4..8] == LittleEndian(ToldSampling(w.km), 4);
  }

  /** In every reachable state a client reads the truth out of the 24 bytes: every
      matrix bit, the custom keys, the counters, reason and number of keys of the
      current hold or else of the last one, and the frames left. */
  lemma ResponseReadsBack(clock: nat, cyclesPerFrame: int, ops: seq<Op>, r: nat, c: nat)
    requires r < 8 && c < 8
    ensures var w := RunFrom(PowerUp(clock, cyclesPerFrame), ops);
      && RecordFits(w) && |w.km.keys| <= MAX_KEYS
      && var b := Response(w);
      && (b[r] / Power(2, c) % 2 == 1 <==> (r, c) in w.host.bits)
      && (b[8] % 2 == 1 <==> (-3, 0) in w.host.bits) && (b[8] / 2 % 2 == 1 <==> (-3, 1) in w.host.bits)
      && (b[8] / 4 % 2 == 1 <==> (-4, 1) in w.host.bits) && (b[8] / 8 == 1 <==> (-4, 0) in w.host.bits)
      && LeValue(b[12..16]) == ToldReads(w.km) && LeValue(b[16..20]) == ToldSampling(w.km)
      && (b[20] == 0 <==> ToldReason(w.km) == NoReason) && (b[20] == 1 <==> ToldReason(w.km) == Observed)
      && (b[20] == 2 <==> ToldReason(w.km) == Timeout) && (b[20] == 3 <==> ToldReason(w.km) == Manual)
      && b[21] == |ToldKeys(w.km)| && b[9] == b[10] == b[11] == 0
      && LeValue(b[22..]) == FramesLeft(w)
  {
    RunRecordFits(PowerUp(clock, cyclesPerFrame), ops);
    var w := RunFrom(PowerUp(clock, cyclesPerFrame), ops);
    MatrixReadsBack(w, r, c);
    HoldReadsBack(w);
    FieldRanges(2, 4);
    LittleEndianValue(FramesLeft(w), 2);
    ResponseLayout(w);
  }

  lemma ResponseLayout(w: World)
    requires Inv(w) && RecordFits(w)
    ensures var b, h := Response(w), HoldBytes(w);
      && b[12..16] == h[..4] && b[16..20] == h[4..8] && b[20] == h[8] && b[21] == h[9]
      && b[22..] == LittleEndian(FramesLeft(w), 2) && b[9] == b[10] == b[11] == 0
  {
    var b := Response(w);
    assert b[12..22] == HoldBytes(w);
    assert b[12..16] == b[12..22][..4] && b[16..20] == b[12..22][4..8];
  }
}
