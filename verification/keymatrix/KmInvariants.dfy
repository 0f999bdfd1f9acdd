/** What every run of the injector keeps. */
module KmInvariants {
  import opened Common
  import opened Text
  import opened KeyList
  import opened KmModel

  // ---- Alarm safety -------------------------------------------------------------

  predicate TapMode(m: Mode) {
    m == TapObserved || m == TapFixed
  }

  /** Holds in every reachable state, however late alarms are served. */
  ghost predicate Inv(w: World) {
    var km := w.km;
    && (km.active <==> km.mode != Idle)
    && (km.active ==> 1 <= |km.keys| <= MAX_KEYS)
    && (!km.active ==> km.keys == [] && km.total == 0 && km.sampling == 0 && km.lastReason == NoReason)
    && km.total < TWO32 && km.sampling < TWO32
    && (w.host.alarm.Some? <==> TapMode(km.mode))
    && (km.lastReason == NoReason || (km.lastReason == Observed && km.mode == TapObserved))
    && (TapMode(km.mode) && km.lastReason == NoReason ==> w.host.alarm == Some(km.timeoutClk))
    && (forall k :: k in km.keys ==> (k.kind == 1 <==> k.row < 0) && (k.kind == 0 || k.kind == 1))
    && (km.active ==> km.pressClk <= w.host.clock)
    && (TapMode(km.mode) ==> km.pressClk < km.timeoutClk)
  }

  /** Keys a request may name: at least one, at most 16, kinds by side of the matrix. */
  ghost predicate GoodRequest(a: Activation) {
    && 1 <= |a.keys| <= MAX_KEYS
    && a.mode != Idle && (a.mode != PressSticky ==> 1 <= a.frames <= 65535)
    && (forall k :: k in a.keys ==> (k.kind == 1 <==> k.row < 0) && (k.kind == 0 || k.kind == 1))
  }

  lemma {:induction false} BinKeysKinds(body: seq<Byte>)
    ensures forall k :: k in BinKeys(body) ==> (k.kind == 1 <==> k.row < 0) && (k.kind == 0 || k.kind == 1)
    decreases |body|
  {
    if |body| >= 2 { BinKeysKinds(body[2..]); }
  }

  lemma {:induction false} FramesInRange(ts: seq<string>, keys: seq<Key>, forFrames: int)
    requires ParseTokens(ts, keys, forFrames).Parsed? && forFrames <= 65535
    ensures ParseTokens(ts, keys, forFrames).forFrames <= 65535
    decreases |ts|
  {
    if ts == [] {
    } else if SameNoCase(ts[0], "for") {
      FramesInRange(ts[2..], keys, ParseFrames(ts[1]).value);
    } else {
      FramesInRange(ts[1..], keys + [ParseKey(ts[0]).value], forFrames);
    }
  }

  lemma AcceptedListGood(args: Option<CString>)
    requires AcceptedList(args).Some?
    ensures var r := AcceptedList(args).value;
      && r.Parsed? && 1 <= |r.keys| <= MAX_KEYS && r.forFrames <= 65535
      && forall k :: k in r.keys ==> Placed(k)
  {
    FramesInRange(Tokens(args.value), [], -1);
    AcceptedReprintable(Tokens(args.value), [], -1);
  }

  lemma RequestsGood(op: Op)
    requires Request(op).Some?
    ensures GoodRequest(Request(op).value)
  {
    match op
    case Tap(args) => AcceptedListGood(args);
    case Press(args) => AcceptedListGood(args);
    case BinTap(body) => BinKeysKinds(body[4..4 + 2 * body[3]]);
  }

  lemma ReleaseNowInv(w: World, reason: Reason)
    requires Inv(w)
    ensures Inv(ReleaseNow(w, reason)) && !ReleaseNow(w, reason).km.active
  {
  }

  lemma ActivateInv(w: World, a: Activation)
    requires Inv(w) && GoodRequest(a)
    ensures Inv(Activate(w, a))
  {
    ReleaseNowInv(w, Manual);
    var w1 := ReleaseNow(w, Manual);
    assert a.mode != PressSticky ==> a.frames * CpfOrPal(w1.host) > 0 by {
      Positive(a.frames, CpfOrPal(w1.host));
    }
  }

  lemma Positive(a: nat, b: nat)
    ensures a * b >= 0
    ensures a > 0 && b > 0 ==> a * b > 0
  {
  }

  lemma {:induction false} SurvivingKeys(keys: seq<Key>, dropped: set<(int, int)>)
    ensures |Surviving(keys, dropped)| <= |keys|
    ensures forall k :: k in Surviving(keys, dropped) <==> k in keys && (k.row, k.col) !in dropped
  {
    if keys != [] { SurvivingKeys(keys[1..], dropped); }
  }

  lemma ReleaseInv(w: World, args: Option<CString>)
    requires Inv(w)
    ensures Inv(Release(w, args))
  {
    if args.None? || args.value == "" {
      ReleaseNowInv(w, Manual);
    } else if AcceptedList(args).Some? {
      var keys := AcceptedList(args).value.keys;
      SurvivingKeys(w.km.keys, Places(keys));
    }
  }

  lemma StepInv(w: World, op: Op)
    requires Inv(w)
    ensures Inv(Step(w, op))
  {
    if Request(op).Some? {
      RequestsGood(op);
      ActivateInv(w, Request(op).value);
    } else if op.ReleaseOp? {
      ReleaseInv(w, op.args);
    } else if op.PaRead? || op.PbRead? {
      ReadInv(w, Sampled(w, op));
    } else if op.Fire? {
      ReleaseNowInv(w, Timeout);
      ReleaseNowInv(w, w.km.lastReason);
    }
  }

  lemma ReadInv(w: World, sampled: bool)
    requires Inv(w)
    ensures Inv(CountRead(w, sampled))
  {
  }

  lemma {:induction false} RunInv(w: World, ops: seq<Op>)
    requires Inv(w)
    ensures Inv(RunFrom(w, ops))
  {
    if ops != [] {
      RunInv(w, Init(ops));
      StepInv(RunFrom(w, Init(ops)), Last(ops));
    }
  }

  /** Over every interleaving: active iff the mode is not idle, 1..16 keys while
      active, an alarm pending iff the mode is a tap mode, and at the deadline set
      by the tap as long as nothing was sampled. */
  lemma AlarmSafety(clock: nat, cyclesPerFrame: int, ops: seq<Op>)
    ensures Inv(RunFrom(PowerUp(clock, cyclesPerFrame), ops))
  {
    RunInv(PowerUp(clock, cyclesPerFrame), ops);
  }

  // ---- Bounded release ------------------------------------------------------------

  /** The host serves alarms when the clock reaches them: time does not pass a
      pending deadline, and at the deadline the alarm comes before anything else. */
  ghost predicate Timely(w: World, op: Op) {
    w.host.alarm.None? || op.Fire? ||
    (if op.Tick? then w.host.clock + op.cycles <= w.host.alarm.value else w.host.clock < w.host.alarm.value)
  }

  ghost predicate TimelyRun(w: World, ops: seq<Op>) {
    ops == [] || (TimelyRun(w, Init(ops)) && Timely(RunFrom(w, Init(ops)), Last(ops)))
  }

  /** The pending deadline has not passed and never exceeds the tap's own. */
  ghost predicate OnTime(w: World) {
    TapMode(w.km.mode) && w.host.alarm.Some? ==> w.host.clock <= w.host.alarm.value <= w.km.timeoutClk
  }

  lemma ActivateOnTime(w: World, a: Activation)
    ensures OnTime(Activate(w, a))
    ensures a.mode != PressSticky ==> Activate(w, a).km.timeoutClk == w.host.clock + a.frames * CpfOrPal(w.host)
  {
    var w1 := ReleaseNow(w, Manual);
    assert w1.host.clock == w.host.clock && CpfOrPal(w1.host) == CpfOrPal(w.host);
    Positive(a.frames, CpfOrPal(w.host));
  }

  lemma StepOnTime(w: World, op: Op)
    requires Inv(w) && OnTime(w) && Timely(w, op)
    ensures OnTime(Step(w, op))
  {
    if Request(op).Some? {
      ActivateOnTime(w, Request(op).value);
    } else if op.PaRead? || op.PbRead? {
      ReadOnTime(w, Sampled(w, op));
    }
  }

  lemma ReadOnTime(w: World, sampled: bool)
    requires Inv(w) && OnTime(w) && !AlarmDue(w)
    ensures OnTime(CountRead(w, sampled))
  {
  }

  lemma {:induction false} DeadlineNeverExceedsTimeout(clock: nat, cyclesPerFrame: int, ops: seq<Op>)
    requires TimelyRun(PowerUp(clock, cyclesPerFrame), ops)
    ensures OnTime(RunFrom(PowerUp(clock, cyclesPerFrame), ops))
  {
    if ops != [] {
      DeadlineNeverExceedsTimeout(clock, cyclesPerFrame, Init(ops));
      AlarmSafety(clock, cyclesPerFrame, Init(ops));
      StepOnTime(RunFrom(PowerUp(clock, cyclesPerFrame), Init(ops)), Last(ops));
    }
  }

  /** Sampling an observed tap moves the deadline to the next cycle.  That never
      postpones the release, except when the deadline is already due. */
  lemma RearmNeverPostpones(w: World)
    requires Inv(w) && w.km.mode == TapObserved && w.km.lastReason == NoReason
    ensures var w' := CountRead(w, true);
      && w'.host.alarm == Some(w.host.clock + 1)
      && (w'.host.alarm.value <= w.host.alarm.value <==> !AlarmDue(w))
  {
  }

  /** The postponement happens: a one-frame observed tap whose alarm, due at clock
      100, is still unserved at clock 500 is sampled there, and the alarm moves to
      501. */
  lemma LateRearm()
    ensures var w := RunFrom(PowerUp(0, 100), [BinTap([0, 1, 0, 1, 1, 2]), Tick(500)]);
      && w.km.mode == TapObserved && w.km.lastReason == NoReason && AlarmDue(w)
      && w.host.alarm == Some(100) && Step(w, PaRead(0)).host.alarm == Some(501)
  {
    var tap, late := BinTap([0, 1, 0, 1, 1, 2]), Tick(500);
    assert Init([tap, late]) == [tap] && Init([tap]) == [];
    OneFrameTap(tap);
    LateRead(Step(Step(PowerUp(0, 100), tap), late));
  }

  lemma OneFrameTap(tap: Op)
    requires tap.BinTap? && tap.body == [0, 1, 0, 1, 1, 2]
    ensures var w := Step(PowerUp(0, 100), tap);
      && w.km.active && w.km.mode == TapObserved && w.km.lastReason == NoReason
      && w.host.alarm == Some(100) && w.host.clock == 0
      && |w.km.keys| == 1 && w.km.keys[0].row == 1 && w.km.keys[0].kind == 0
  {
    var a := BinTapRequest(tap.body).value;
    assert a.frames == 1;
  }

  lemma LateRead(w: World)
    requires w.km.active && w.km.mode == TapObserved && w.km.lastReason == NoReason && w.host.clock == 500
    requires |w.km.keys| == 1 && w.km.keys[0].row == 1 && w.km.keys[0].kind == 0
    ensures Step(w, PaRead(0)).host.alarm == Some(501)
  {
    assert Selected(0, w.km.keys[0].row);
  }

  /** An operation that starts a new hold. */
  predicate Activates(op: Op) {
    Request(op).Some?
  }

  /** The hold that w is in is over in w', or still the same one. */
  ghost predicate SameHoldOrOver(w: World, w': World) {
    !w'.km.active ||
    (&& w'.km.mode == w.km.mode && w'.km.pressClk == w.km.pressClk && w'.km.timeoutClk == w.km.timeoutClk
     && (w.km.lastReason == Observed ==> w'.km.lastReason == Observed && w'.host.alarm == w.host.alarm))
  }

  /** Releasing by name either ends the hold or only shortens its key list. */
  lemma ReleaseEffect(w: World, args: Option<CString>)
    ensures var w' := Release(w, args);
      !w'.km.active || (w'.km == w.km.(keys := w'.km.keys) && w'.host.alarm == w.host.alarm)
  {
    if args.None? || args.value == "" {
      assert !ReleaseNow(w, Manual).km.active;
    } else if AcceptedList(args).Some? {
      var r := AcceptedList(args).value;
      if r.Parsed? {
        ReleaseKeysEffect(w, r.keys);
      }
    }
  }

  lemma ReleaseKeysEffect(w: World, keys: seq<Key>)
    ensures var w' := ReleaseKeys(w, keys);
      !w'.km.active || (w'.km == w.km.(keys := w'.km.keys) && w'.host.alarm == w.host.alarm)
  {
  }

  lemma ReleaseSameHold(w: World, args: Option<CString>)
    ensures SameHoldOrOver(w, Release(w, args))
    ensures !w.km.active ==> !Release(w, args).km.active
  {
    ReleaseEffect(w, args);
  }

  lemma ReadSameHold(w: World, sampled: bool)
    requires Inv(w)
    ensures SameHoldOrOver(w, CountRead(w, sampled))
    ensures !w.km.active ==> !CountRead(w, sampled).km.active
  {
  }

  lemma StepSameHold(w: World, op: Op)
    requires Inv(w) && !Activates(op)
    ensures SameHoldOrOver(w, Step(w, op))
    ensures !w.km.active ==> !Step(w, op).km.active
  {
    if op.ReleaseOp? {
      ReleaseSameHold(w, op.args);
    } else if op.PaRead? || op.PbRead? {
      ReadSameHold(w, Sampled(w, op));
    }
  }

  ghost predicate NoActivation(ops: seq<Op>) {
    forall i :: 0 <= i < |ops| ==> !Activates(ops[i])
  }

  lemma {:induction false} RunSameHold(w: World, ops: seq<Op>)
    requires Inv(w) && NoActivation(ops)
    ensures SameHoldOrOver(w, RunFrom(w, ops))
    ensures !w.km.active ==> !RunFrom(w, ops).km.active
  {
    if ops != [] {
      RunSameHold(w, Init(ops));
      RunInv(w, Init(ops));
      StepSameHold(RunFrom(w, Init(ops)), Last(ops));
    }
  }

  lemma {:induction false} RunOnTime(w: World, ops: seq<Op>)
    requires Inv(w) && OnTime(w) && TimelyRun(w, ops)
    ensures OnTime(RunFrom(w, ops))
  {
    if ops != [] {
      RunOnTime(w, Init(ops));
      RunInv(w, Init(ops));
      StepOnTime(RunFrom(w, Init(ops)), Last(ops));
    }
  }

  lemma ActivatedIsBounded(w: World, a: Activation, ops: seq<Op>)
    requires Inv(w) && GoodRequest(a) && TapMode(a.mode)
    requires NoActivation(ops) && TimelyRun(Activate(w, a), ops)
    ensures var w' := RunFrom(Activate(w, a), ops);
      var end := w.host.clock + a.frames * CpfOrPal(w.host);
      && (w'.km.active ==> w'.host.clock <= end)
      && (w'.host.clock >= end && !AlarmDue(w') ==> !w'.km.active)
  {
    var w1 := Activate(w, a);
    ActivateInv(w, a);
    RunInv(w1, ops);
    RunOnTime(w1, ops);
    RunSameHold(w1, ops);
  }

  /** In every reachable state, a tap of n frames made at clock c is over by
      c + n * cpf: whatever a timely host sees next, short of a new request, nothing
      is held after that time, nor at it once the alarm has been served. */
  lemma TapIsBounded(clock: nat, cyclesPerFrame: int, before: seq<Op>, tap: Op, ops: seq<Op>)
    requires Request(tap).Some? && TapMode(Request(tap).value.mode) && NoActivation(ops)
    ensures var w := RunFrom(PowerUp(clock, cyclesPerFrame), before);
      var w', end := RunFrom(Step(w, tap), ops), w.host.clock + Request(tap).value.frames * CpfOrPal(w.host);
      TimelyRun(Step(w, tap), ops) ==>
        && (w'.km.active ==> w'.host.clock <= end)
        && (w'.host.clock >= end && !AlarmDue(w') ==> !w'.km.active)
  {
    var w, a := RunFrom(PowerUp(clock, cyclesPerFrame), before), Request(tap).value;
    AlarmSafety(clock, cyclesPerFrame, before);
    RequestsGood(tap);
    assert Step(w, tap) == Activate(w, a);
    if TimelyRun(Activate(w, a), ops) {
      ActivatedIsBounded(w, a, ops);
    }
  }

  lemma SampledIsBounded(w: World, ops: seq<Op>)
    requires Inv(w) && OnTime(w) && !AlarmDue(w) && w.km.mode == TapObserved && w.km.lastReason == NoReason
    requires NoActivation(ops) && TimelyRun(CountRead(w, true), ops)
    ensures var w' := RunFrom(CountRead(w, true), ops);
      && (w'.km.active ==> w'.host.clock <= w.host.clock + 1)
      && (w'.host.clock >= w.host.clock + 1 && !AlarmDue(w') ==> !w'.km.active)
  {
    var w1 := CountRead(w, true);
    assert Inv(w1) && OnTime(w1);
    RunInv(w1, ops);
    RunOnTime(w1, ops);
    RunSameHold(w1, ops);
  }

  /** In every reachable state of a timely host, an observed tap that a read first
      samples at clock t is over by t + 1. */
  lemma ObservedTapIsBounded(clock: nat, cyclesPerFrame: int, before: seq<Op>, read: Op, ops: seq<Op>)
    requires NoActivation(ops)
    ensures var w := RunFrom(PowerUp(clock, cyclesPerFrame), before);
      var w' := RunFrom(Step(w, read), ops);
      && TimelyRun(PowerUp(clock, cyclesPerFrame), before) && Timely(w, read) && TimelyRun(Step(w, read), ops)
      && w.km.mode == TapObserved && w.km.lastReason == NoReason && Sampled(w, read) ==>
        && (w'.km.active ==> w'.host.clock <= w.host.clock + 1)
        && (w'.host.clock >= w.host.clock + 1 && !AlarmDue(w') ==> !w'.km.active)
  {
    var w := RunFrom(PowerUp(clock, cyclesPerFrame), before);
    if TimelyRun(PowerUp(clock, cyclesPerFrame), before) && Timely(w, read) && TimelyRun(Step(w, read), ops)
       && w.km.mode == TapObserved && w.km.lastReason == NoReason && Sampled(w, read) {
      AlarmSafety(clock, cyclesPerFrame, before);
      DeadlineNeverExceedsTimeout(clock, cyclesPerFrame, before);
      assert Step(w, read) == CountRead(w, true) && !AlarmDue(w);
      SampledIsBounded(w, ops);
    }
  }

  // ---- Hosts that serve alarms late ------------------------------------------------

  /** The host is never more than `late` cycles behind a pending deadline. */
  ghost predicate LateBy(w: World, op: Op, late: nat) {
    w.host.alarm.None? || op.Fire? ||
    w.host.clock + (if op.Tick? then op.cycles else 0) <= w.host.alarm.value + late
  }

  ghost predicate LateRun(w: World, ops: seq<Op>, late: nat) {
    ops == [] || (LateRun(w, Init(ops), late) && LateBy(RunFrom(w, Init(ops)), Last(ops), late))
  }

  /** A read may move the deadline past the tap's own, but by no more than the host
      was behind, and one. */
  ghost predicate WithinLateness(w: World, late: nat) {
    TapMode(w.km.mode) && w.host.alarm.Some? ==>
      w.host.clock <= w.host.alarm.value + late && w.host.alarm.value <= w.km.timeoutClk + late + 1
  }

  lemma StepWithinLateness(w: World, op: Op, late: nat)
    requires Inv(w) && WithinLateness(w, late) && LateBy(w, op, late)
    ensures WithinLateness(Step(w, op), late)
  {
    if Request(op).Some? {
      ActivateOnTime(w, Request(op).value);
    } else if op.PaRead? || op.PbRead? {
      ReadWithinLateness(w, Sampled(w, op), late);
    } else if op.ReleaseOp? {
      ReleaseEffect(w, op.args);
      ReleaseKeepsClock(w, op.args);
      ReleaseInv(w, op.args);
    }
  }

  lemma ReadWithinLateness(w: World, sampled: bool, late: nat)
    requires Inv(w) && WithinLateness(w, late) && (w.host.alarm.Some? ==> w.host.clock <= w.host.alarm.value + late)
    ensures WithinLateness(CountRead(w, sampled), late)
  {
  }

  lemma ReleaseKeepsClock(w: World, args: Option<CString>)
    ensures Release(w, args).host.clock == w.host.clock
  {
  }

  lemma {:induction false} RunWithinLateness(w: World, ops: seq<Op>, late: nat)
    requires Inv(w) && WithinLateness(w, late) && LateRun(w, ops, late)
    ensures WithinLateness(RunFrom(w, ops), late)
  {
    if ops != [] {
      RunWithinLateness(w, Init(ops), late);
      RunInv(w, Init(ops));
      StepWithinLateness(RunFrom(w, Init(ops)), Last(ops), late);
    }
  }

  lemma ActivatedIsBoundedLate(w: World, a: Activation, ops: seq<Op>, late: nat)
    requires Inv(w) && GoodRequest(a) && TapMode(a.mode)
    requires NoActivation(ops) && LateRun(Activate(w, a), ops, late)
    ensures var w' := RunFrom(Activate(w, a), ops);
      w'.km.active ==> w'.host.clock <= w.host.clock + a.frames * CpfOrPal(w.host) + 2 * late + 1
  {
    var w1 := Activate(w, a);
    ActivateInv(w, a);
    ActivateOnTime(w, a);
    RunInv(w1, ops);
    RunWithinLateness(w1, ops, late);
    RunSameHold(w1, ops);
  }

  /** In every reachable state, on a host that serves alarms at most `late` cycles
      late, a tap of n frames made at clock c is over by c + n * cpf + 2 * late + 1. */
  lemma LateTapIsBounded(clock: nat, cyclesPerFrame: int, before: seq<Op>, tap: Op, ops: seq<Op>, late: nat)
    requires Request(tap).Some? && TapMode(Request(tap).value.mode) && NoActivation(ops)
    ensures var w := RunFrom(PowerUp(clock, cyclesPerFrame), before);
      var w', end := RunFrom(Step(w, tap), ops), w.host.clock + Request(tap).value.frames * CpfOrPal(w.host);
      LateRun(Step(w, tap), ops, late) && w'.km.active ==> w'.host.clock <= end + 2 * late + 1
  {
    var w, a := RunFrom(PowerUp(clock, cyclesPerFrame), before), Request(tap).value;
    AlarmSafety(clock, cyclesPerFrame, before);
    RequestsGood(tap);
    assert Step(w, tap) == Activate(w, a);
    if LateRun(Activate(w, a), ops, late) {
      ActivatedIsBoundedLate(w, a, ops, late);
    }
  }

  // ---- No stuck keys ------------------------------------------------------------------

  /** Exactly the tracked keys are down. */
  ghost predicate NothingStuck(w: World) {
    w.host.bits == if w.km.active then Places(w.km.keys) else {}
  }

  lemma SurvivingPlaces(keys: seq<Key>, dropped: set<(int, int)>)
    ensures Places(Surviving(keys, dropped)) == Places(keys) - dropped
  {
    SurvivingKeys(keys, dropped);
  }

  lemma ReleaseNothingStuck(w: World, args: Option<CString>)
    requires Inv(w) && NothingStuck(w)
    ensures NothingStuck(Release(w, args))
  {
    if args.Some? && args.value != "" && AcceptedList(args).Some? {
      AcceptedListGood(args);
      var dropped := Places(AcceptedList(args).value.keys);
      SurvivingPlaces(w.km.keys, dropped);
      if Surviving(w.km.keys, dropped) == [] {
        assert Places([]) == {};
      }
    }
  }

  lemma ActivateNothingStuck(w: World, a: Activation)
    requires NothingStuck(w)
    ensures NothingStuck(Activate(w, a))
  {
  }

  lemma StepNothingStuck(w: World, op: Op)
    requires Inv(w) && NothingStuck(w) && !op.RawBit?
    ensures NothingStuck(Step(w, op))
  {
    if Request(op).Some? {
      ActivateNothingStuck(w, Request(op).value);
    } else if op.ReleaseOp? {
      ReleaseNothingStuck(w, op.args);
    }
  }

  /** From a clear matrix, over every run without raw bit writes, the set bits are
      exactly the tracked keys while active and none while idle. */
  lemma {:induction false} NoStuckKeys(clock: nat, cyclesPerFrame: int, ops: seq<Op>)
    requires forall i :: 0 <= i < |ops| ==> !ops[i].RawBit?
    ensures NothingStuck(RunFrom(PowerUp(clock, cyclesPerFrame), ops))
  {
    if ops != [] {
      NoStuckKeys(clock, cyclesPerFrame, Init(ops));
      AlarmSafety(clock, cyclesPerFrame, Init(ops));
      StepNothingStuck(RunFrom(PowerUp(clock, cyclesPerFrame), Init(ops)), Last(ops));
    }
  }
}
