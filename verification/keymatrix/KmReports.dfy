/** Truth of the release report: what ends a hold records what happened during it. */
module KmReports {
  import opened Common
  import opened Text
  import opened KeyList
  import opened KmModel
  import opened KmInvariants

  /** A world together with the true number of reads, and of sampling reads, since
      the current hold began. */
  datatype Tracked = Tracked(w: World, readCount: nat, sampleCount: nat)

  function Track(t: Tracked, op: Op): Tracked {
    var w' := Step(t.w, op);
    if Activates(op) || !w'.km.active then Tracked(w', 0, 0)
    else if op.PaRead? || op.PbRead? then
      Tracked(w', t.readCount + 1, t.sampleCount + if Sampled(t.w, op) then 1 else 0)
    else Tracked(w', t.readCount, t.sampleCount)
  }

  function TrackRun(t: Tracked, ops: seq<Op>): Tracked {
    if ops == [] then t else Track(TrackRun(t, Init(ops)), Last(ops))
  }

  /** The counters are the true counts modulo 2^32, sampling reads are among all
      reads, and a release is due to observation iff an observed tap was sampled. */
  ghost predicate Truthful(t: Tracked) {
    var km := t.w.km;
    && t.sampleCount <= t.readCount
    && km.total == t.readCount % TWO32 && km.sampling == t.sampleCount % TWO32
    && (km.lastReason == Observed <==> km.mode == TapObserved && t.sampleCount > 0)
  }

  lemma NextCount(n: nat)
    ensures (n % TWO32 + 1) % TWO32 == (n + 1) % TWO32
  {
  }

  lemma ReadCounts(t: Tracked, sampled: bool)
    requires Inv(t.w) && Truthful(t) && t.w.km.active
    ensures Truthful(Tracked(CountRead(t.w, sampled), t.readCount + 1, t.sampleCount + if sampled then 1 else 0))
  {
    NextCount(t.readCount);
    NextCount(t.sampleCount);
  }

  lemma IdleIsTruthful(w: World)
    requires Inv(w) && !w.km.active
    ensures Truthful(Tracked(w, 0, 0))
  {
  }

  /** What a read does to the tracked counts. */
  lemma TrackOfRead(t: Tracked, op: Op)
    requires op.PaRead? || op.PbRead?
    ensures var sampled := Sampled(t.w, op);
      Track(t, op) ==
        if !t.w.km.active then Tracked(t.w, 0, 0)
        else Tracked(CountRead(t.w, sampled), t.readCount + 1, t.sampleCount + if sampled then 1 else 0)
  {
    assert Step(t.w, op) == CountRead(t.w, Sampled(t.w, op)) && !Activates(op);
  }

  lemma TrackRead(t: Tracked, op: Op)
    requires Inv(t.w) && Truthful(t) && (op.PaRead? || op.PbRead?)
    ensures Truthful(Track(t, op))
  {
    TrackOfRead(t, op);
    if t.w.km.active {
      ReadCounts(t, Sampled(t.w, op));
    } else {
      IdleIsTruthful(t.w);
    }
  }

  lemma TrackRelease(t: Tracked, op: Op)
    requires Inv(t.w) && Truthful(t) && op.ReleaseOp?
    ensures Truthful(Track(t, op))
  {
    ReleaseInv(t.w, op.args);
    ReleaseEffect(t.w, op.args);
  }

  lemma TrackStep(t: Tracked, op: Op)
    requires Inv(t.w) && Truthful(t)
    ensures Truthful(Track(t, op))
  {
    if op.PaRead? || op.PbRead? {
      TrackRead(t, op);
    } else if op.ReleaseOp? {
      TrackRelease(t, op);
    } else {
      StepInv(t.w, op);
    }
  }

  lemma {:induction false} TrackedWorld(t: Tracked, ops: seq<Op>)
    ensures TrackRun(t, ops).w == RunFrom(t.w, ops)
  {
    if ops != [] { TrackedWorld(t, Init(ops)); }
  }

  lemma {:induction false} CountsAreTrue(clock: nat, cyclesPerFrame: int, ops: seq<Op>)
    ensures Truthful(TrackRun(Tracked(PowerUp(clock, cyclesPerFrame), 0, 0), ops))
  {
    if ops != [] {
      var t := Tracked(PowerUp(clock, cyclesPerFrame), 0, 0);
      CountsAreTrue(clock, cyclesPerFrame, Init(ops));
      TrackedWorld(t, Init(ops));
      AlarmSafety(clock, cyclesPerFrame, Init(ops));
      TrackStep(TrackRun(t, Init(ops)), Last(ops));
    }
  }

  /** The operation ends the current hold. */
  predicate Ends(w: World, op: Op) {
    w.km.active && (Activates(op) || !Step(w, op).km.active)
  }

  /** What a release must have recorded, given the true counts before it. */
  ghost predicate TrueReport(t: Tracked, op: Op, r: Report) {
    var km := t.w.km;
    && r.mode == km.mode
    && r.keys == (if op.ReleaseOp? && op.args.Some? && op.args.value != "" then [] else km.keys)
    && r.total == t.readCount % TWO32 && r.sampling == t.sampleCount % TWO32
    && (r.reason == Observed <==> km.mode == TapObserved && t.sampleCount > 0)
    && (r.reason == Timeout ==> op.Fire? && km.timeoutClk <= t.w.host.clock)
    && (op.Fire? ==> r.reason == Observed || r.reason == Timeout)
    && (km.mode == PressSticky ==> r.reason == Manual)
    && r.reason != NoReason
  }

  lemma ReportIsTrue(t: Tracked, op: Op, w: World, reason: Reason)
    requires Inv(t.w) && Truthful(t) && t.w.km.active
    requires w.km == t.w.km.(keys := w.km.keys) && w.host.clock == t.w.host.clock
    requires if op.Fire? then AlarmDue(t.w) && reason == (if t.w.km.lastReason != NoReason then t.w.km.lastReason else Timeout) else reason == Manual
    requires w.km.keys == if op.ReleaseOp? && op.args.Some? && op.args.value != "" then [] else t.w.km.keys
    ensures TrueReport(t, op, ReportNow(w, reason))
  {
  }

  /** Ending a hold by name reports it as a manual release, of the keys left. */
  lemma ReleaseReports(w: World, args: Option<CString>) returns (v: World)
    requires w.km.active && !Release(w, args).km.active
    ensures v.km == w.km.(keys := v.km.keys) && |v.km.keys| <= |w.km.keys|
    ensures v.km.keys == if args.Some? && args.value != "" then [] else w.km.keys
    ensures v.host.clock == w.host.clock && v.host.cyclesPerFrame == w.host.cyclesPerFrame
    ensures Release(w, args).km.last == Some(ReportNow(v, Manual))
  {
    v := w;
    if args.Some? && args.value != "" {
      var keys := AcceptedList(args).value.keys;
      v := World(w.km.(keys := []), w.host.(bits := w.host.bits - Places(keys)));
    }
  }

  lemma EndIsReported(t: Tracked, op: Op)
    requires Inv(t.w) && Truthful(t) && Ends(t.w, op)
    ensures var last := Step(t.w, op).km.last; last.Some? && TrueReport(t, op, last.value)
  {
    if Activates(op) {
      ReportIsTrue(t, op, t.w, Manual);
    } else if op.ReleaseOp? {
      var v := ReleaseReports(t.w, op.args);
      ReportIsTrue(t, op, v, Manual);
    } else {
      assert op.Fire? && AlarmDue(t.w);
      ReportIsTrue(t, op, t.w, if t.w.km.lastReason != NoReason then t.w.km.lastReason else Timeout);
    }
  }

  /** Whatever run came before, the operation that ends a hold records the truth
      about it: both counts modulo 2^32, and of the three reasons the one that
      `TrueReport` singles out. */
  lemma ReleaseReportTruthful(clock: nat, cyclesPerFrame: int, ops: seq<Op>, op: Op)
    requires Ends(RunFrom(PowerUp(clock, cyclesPerFrame), ops), op)
    ensures var t := TrackRun(Tracked(PowerUp(clock, cyclesPerFrame), 0, 0), ops);
      var last := RunFrom(PowerUp(clock, cyclesPerFrame), ops + [op]).km.last;
      t.sampleCount <= t.readCount && last.Some? && TrueReport(t, op, last.value)
  {
    var t := Tracked(PowerUp(clock, cyclesPerFrame), 0, 0);
    CountsAreTrue(clock, cyclesPerFrame, ops);
    TrackedWorld(t, ops);
    AlarmSafety(clock, cyclesPerFrame, ops);
    EndIsReported(TrackRun(t, ops), op);
    assert Init(ops + [op]) == ops;
  }
}
