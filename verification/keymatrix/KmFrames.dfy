/** Frames held and frames left: how they add up during a tap, and what is reported
    outside one. */
module KmFrames {
  import opened Common
  import opened Text
  import opened KeyList
  import opened KeyGrammar
  import opened KmModel
  import opened KmInvariants
  import opened KmReports

  /** Cutting n whole frames anywhere leaves n whole frames if the cut falls on a
      frame boundary, and n - 1 otherwise. */
  lemma CutFrames(n: int, d: int, h: int)
    requires d > 0 && 0 <= h <= n * d
    ensures h / d + (n * d - h) / d == if h % d == 0 then n else n - 1
  {
    var q, r := h / d, h % d;
    assert h == q * d + r;
    if r == 0 {
      assert n * d - h == (n - q) * d + 0;
      QuotientIs(n * d - h, d, n - q, 0);
    } else {
      assert n * d - h == (n - q - 1) * d + (d - r);
      QuotientIs(n * d - h, d, n - q - 1, d - r);
    }
  }

  lemma QuotientBound(h: int, d: int, n: int)
    requires d > 0 && 0 <= h <= n * d
    ensures 0 <= h / d <= n
  {
    var q := h / d;
    assert h >= q * d == n * d + (q - n) * d;
    if q > n {
      Multiple(q - n, d);
    }
  }

  /** An n-frame tap with a known, unchanged frame length. */
  ghost predicate HoldsFrames(w: World, n: nat) {
    var d := w.host.cyclesPerFrame;
    d > 0 && n <= 65535 && w.km.active && w.km.timeoutClk == w.km.pressClk + n * d && w.km.pressClk <= w.host.clock
  }

  /** Up to the deadline the frames still to come, as GET reports them, and the
      frames a release would record now add up to n on a frame boundary and to
      n - 1 between boundaries. */
  lemma FramesAddUp(w: World, n: nat)
    requires HoldsFrames(w, n) && w.host.clock <= w.km.timeoutClk
    ensures FramesLeft(w) + FramesHeld(w) ==
      if (w.host.clock - w.km.pressClk) % w.host.cyclesPerFrame == 0 then n else n - 1
  {
    var d, h := w.host.cyclesPerFrame, w.host.clock - w.km.pressClk;
    CutFrames(n, d, h);
    QuotientBound(h, d, n);
    QuotientBound(n * d - h, d, n);
    if h == n * d {
      QuotientIs(h, d, n, 0);
    }
  }

  /** A release at the deadline or less than one frame late records n frames. */
  lemma FramesHeldAtDeadline(w: World, n: nat)
    requires HoldsFrames(w, n) && w.km.timeoutClk <= w.host.clock < w.km.timeoutClk + w.host.cyclesPerFrame
    ensures FramesHeld(w) == n
  {
    var d := w.host.cyclesPerFrame;
    QuotientIs(w.host.clock - w.km.pressClk, d, n, w.host.clock - w.km.timeoutClk);
  }

  /** The reported number is that of the whole frames in so many cycles, up to 65535. */
  predicate WholeFrames(cycles: int, perFrame: int, reported: int) {
    && 0 <= reported <= 65535
    && reported * perFrame <= cycles
    && (reported < 65535 ==> cycles < reported * perFrame + perFrame)
  }

  lemma QuotientIsWhole(cycles: int, perFrame: int)
    requires perFrame > 0 && cycles >= 0
    ensures WholeFrames(cycles, perFrame, if cycles / perFrame > 65535 then 65535 else cycles / perFrame)
  {
    var q, rest := cycles / perFrame, cycles % perFrame;
    assert cycles == q * perFrame + rest;
    QuotientNotNegative(cycles, perFrame);
    if q > 65535 {
      assert q * perFrame == 65535 * perFrame + (q - 65535) * perFrame;
      Multiple(q - 65535, perFrame);
    }
  }

  /** Frames held and frames left are whole frames since the press and to the deadline;
      0 on a machine of unknown frame length, before the press, past the deadline. */
  lemma FramesAreWhole(w: World)
    ensures w.host.cyclesPerFrame > 0 && w.host.clock >= w.km.pressClk ==>
      WholeFrames(w.host.clock - w.km.pressClk, w.host.cyclesPerFrame, FramesHeld(w))
    ensures w.host.cyclesPerFrame > 0 && w.km.active && w.km.timeoutClk > w.host.clock ==>
      WholeFrames(w.km.timeoutClk - w.host.clock, w.host.cyclesPerFrame, FramesLeft(w))
    ensures w.host.cyclesPerFrame <= 0 || w.host.clock < w.km.pressClk ==> FramesHeld(w) == 0
    ensures w.host.cyclesPerFrame <= 0 || !w.km.active || w.km.timeoutClk <= w.host.clock ==> FramesLeft(w) == 0
  {
    if w.host.cyclesPerFrame > 0 && w.host.clock >= w.km.pressClk {
      QuotientIsWhole(w.host.clock - w.km.pressClk, w.host.cyclesPerFrame);
    }
    if w.host.cyclesPerFrame > 0 && w.km.timeoutClk > w.host.clock {
      QuotientIsWhole(w.km.timeoutClk - w.host.clock, w.host.cyclesPerFrame);
    }
  }

  ghost predicate SameMachine(ops: seq<Op>) {
    forall i :: 0 <= i < |ops| ==> !ops[i].SetCyclesPerFrame?
  }

  lemma StepKeepsMachine(w: World, op: Op)
    requires !op.SetCyclesPerFrame?
    ensures Step(w, op).host.cyclesPerFrame == w.host.cyclesPerFrame
  {
    if op.ReleaseOp? {
      assert Release(w, op.args).host.cyclesPerFrame == w.host.cyclesPerFrame;
    }
  }

  lemma {:induction false} RunKeepsMachine(w: World, ops: seq<Op>)
    requires SameMachine(ops)
    ensures RunFrom(w, ops).host.cyclesPerFrame == w.host.cyclesPerFrame
  {
    if ops != [] {
      RunKeepsMachine(w, Init(ops));
      StepKeepsMachine(RunFrom(w, Init(ops)), Last(ops));
    }
  }

  /** The operation that ends a hold records the frames held at that moment. */
  lemma EndRecordsFrames(w: World, op: Op)
    requires Ends(w, op)
    ensures Step(w, op).km.last.Some? && Step(w, op).km.last.value.framesHeld == FramesHeld(w)
  {
    if op.ReleaseOp? && !Activates(op) {
      var v := ReleaseReports(w, op.args);
      SameFramesHeld(w, v);
    }
  }

  lemma SameFramesHeld(w: World, v: World)
    requires v.km == w.km.(keys := v.km.keys)
    requires v.host.clock == w.host.clock && v.host.cyclesPerFrame == w.host.cyclesPerFrame
    ensures FramesHeld(v) == FramesHeld(w)
  {
  }

  lemma RunHoldsFrames(w: World, a: Activation, ops: seq<Op>)
    requires Inv(w) && GoodRequest(a) && TapMode(a.mode) && w.host.cyclesPerFrame > 0
    requires NoActivation(ops) && SameMachine(ops)
    ensures var w' := RunFrom(Activate(w, a), ops);
      && w'.host.cyclesPerFrame == w.host.cyclesPerFrame
      && (w'.km.active ==> HoldsFrames(w', a.frames) && w'.km.pressClk == w.host.clock)
  {
    var w1 := Activate(w, a);
    ActivateInv(w, a);
    RunInv(w1, ops);
    RunSameHold(w1, ops);
    RunKeepsMachine(w1, ops);
    ActivateOnTime(w, a);
  }

  /** The frames of an n-frame tap add up until its deadline, and a release by an
      alarm served at the deadline or less than one frame late records exactly n. */
  ghost predicate FramesAccounted(w: World, n: nat) {
    var d, held := w.host.cyclesPerFrame, w.host.clock - w.km.pressClk;
    && d > 0
    && (0 <= held <= n * d ==> FramesLeft(w) + FramesHeld(w) == if held % d == 0 then n else n - 1)
    && (n * d <= held < n * d + d && Ends(w, Fire) ==>
          Step(w, Fire).km.last.Some? && Step(w, Fire).km.last.value.framesHeld == n)
  }

  lemma HoldIsAccounted(w: World, n: nat)
    requires HoldsFrames(w, n)
    ensures FramesAccounted(w, n)
  {
    var d, held := w.host.cyclesPerFrame, w.host.clock - w.km.pressClk;
    if held <= n * d {
      FramesAddUp(w, n);
    }
    if n * d <= held < n * d + d && Ends(w, Fire) {
      EndRecordsFrames(w, Fire);
      FramesHeldAtDeadline(w, n);
    }
  }

  /** In every reachable state of a machine with a known frame length, and over every
      run after an n-frame tap made there, as long as the tap lasts. */
  lemma FrameAccounting(clock: nat, cyclesPerFrame: int, before: seq<Op>, tap: Op, ops: seq<Op>)
    requires Request(tap).Some? && TapMode(Request(tap).value.mode)
    requires NoActivation(ops) && SameMachine(ops)
    ensures var w := RunFrom(PowerUp(clock, cyclesPerFrame), before);
      var w' := RunFrom(Step(w, tap), ops);
      w.host.cyclesPerFrame > 0 && w'.km.active ==>
        && w'.km.pressClk == w.host.clock && w'.host.cyclesPerFrame == w.host.cyclesPerFrame
        && FramesAccounted(w', Request(tap).value.frames)
  {
    var w, a := RunFrom(PowerUp(clock, cyclesPerFrame), before), Request(tap).value;
    AlarmSafety(clock, cyclesPerFrame, before);
    RequestsGood(tap);
    assert Step(w, tap) == Activate(w, a);
    if w.host.cyclesPerFrame > 0 && RunFrom(Activate(w, a), ops).km.active {
      RunHoldsFrames(w, a, ops);
      HoldIsAccounted(RunFrom(Activate(w, a), ops), a.frames);
    }
  }

  /** The documentation promises zero frames left outside taps.  A sticky press
      keeps the deadline of an earlier tap, and exactly while at least one frame of
      it remains it is reported all the same. */
  lemma FramesLeftOutsideTaps(w: World)
    requires Inv(w) && !TapMode(w.km.mode)
    ensures FramesLeft(w) != 0 <==>
      var d := w.host.cyclesPerFrame;
      w.km.mode == PressSticky && d > 0 && w.km.timeoutClk - w.host.clock >= d
  {
    var d, left := w.host.cyclesPerFrame, w.km.timeoutClk - w.host.clock;
    if w.km.active && left > 0 && d > 0 {
      if left < d {
        QuotientIs(left, d, 0, left);
      } else {
        AtLeastOne(left, d);
      }
    }
  }

  lemma AtLeastOne(a: int, d: int)
    requires d > 0 && a >= d
    ensures a / d >= 1
  {
    var q, r := a / d, a % d;
    assert a == q * d + r;
  }

  /** The clock and the frame length after a run, read off its operations. */
  function ClockAfter(clock: nat, ops: seq<Op>): nat {
    if ops == [] then clock
    else ClockAfter(clock, Init(ops)) + if Last(ops).Tick? then Last(ops).cycles else 0
  }

  function FrameLengthAfter(cyclesPerFrame: int, ops: seq<Op>): int {
    if ops == [] then cyclesPerFrame
    else if Last(ops).SetCyclesPerFrame? then Last(ops).perFrame
    else FrameLengthAfter(cyclesPerFrame, Init(ops))
  }

  function FrameOrPal(cyclesPerFrame: int): (c: nat)
    ensures c > 0
  {
    if cyclesPerFrame <= 0 then PAL_CYCLES_PER_FRAME else cyclesPerFrame
  }

  /** The deadline of the last tap of a run, or 0 before any. */
  function LastDeadline(clock: nat, cyclesPerFrame: int, ops: seq<Op>): int {
    if ops == [] then 0
    else
      var before, request := Init(ops), Request(Last(ops));
      if request.Some? && TapMode(request.value.mode)
      then ClockAfter(clock, before) + request.value.frames * FrameOrPal(FrameLengthAfter(cyclesPerFrame, before))
      else LastDeadline(clock, cyclesPerFrame, before)
  }

  /** An operation other than a tap leaves the deadline, and only time and a change
      of machine move the clock and the frame length. */
  lemma StepKeepsDeadline(w: World, op: Op)
    ensures var w' := Step(w, op);
      && w'.host.clock == w.host.clock + (if op.Tick? then op.cycles else 0)
      && w'.host.cyclesPerFrame == (if op.SetCyclesPerFrame? then op.perFrame else w.host.cyclesPerFrame)
      && w'.km.timeoutClk == (if Request(op).Some? && TapMode(Request(op).value.mode)
                              then w.host.clock + Request(op).value.frames * CpfOrPal(w.host) else w.km.timeoutClk)
  {
    if Request(op).Some? {
      ActivateDeadline(w, Request(op).value);
      RequestModes(op);
    } else if op.ReleaseOp? {
      ReleaseKeepsDeadline(w, op.args);
    }
  }

  lemma RequestModes(op: Op)
    requires Request(op).Some?
    ensures Request(op).value.mode == PressSticky || TapMode(Request(op).value.mode)
  {
  }

  lemma ActivateDeadline(w: World, a: Activation)
    ensures var w' := Activate(w, a);
      && w'.host.clock == w.host.clock && w'.host.cyclesPerFrame == w.host.cyclesPerFrame
      && w'.km.timeoutClk == (if a.mode != PressSticky then w.host.clock + a.frames * CpfOrPal(w.host) else w.km.timeoutClk)
  {
    var w1 := ReleaseNow(w, Manual);
    assert w1.host.clock == w.host.clock && w1.host.cyclesPerFrame == w.host.cyclesPerFrame;
    Positive(a.frames, CpfOrPal(w.host));
  }

  lemma ReleaseKeepsDeadline(w: World, args: Option<CString>)
    ensures var w' := Release(w, args);
      && w'.host.clock == w.host.clock && w'.host.cyclesPerFrame == w.host.cyclesPerFrame
      && w'.km.timeoutClk == w.km.timeoutClk
  {
  }

  lemma {:induction false} DeadlineIsLastTaps(clock: nat, cyclesPerFrame: int, ops: seq<Op>)
    ensures var w := RunFrom(PowerUp(clock, cyclesPerFrame), ops);
      && w.host.clock == ClockAfter(clock, ops)
      && w.host.cyclesPerFrame == FrameLengthAfter(cyclesPerFrame, ops)
      && w.km.timeoutClk == LastDeadline(clock, cyclesPerFrame, ops)
  {
    if ops != [] {
      DeadlineIsLastTaps(clock, cyclesPerFrame, Init(ops));
      StepKeepsDeadline(RunFrom(PowerUp(clock, cyclesPerFrame), Init(ops)), Last(ops));
    }
  }

  /** So a caller can tell from the calls alone: in every reachable state outside taps
      the report is not zero exactly if a press is held and a whole frame is left to
      the deadline of the last tap. */
  lemma StaleFramesExactly(clock: nat, cyclesPerFrame: int, ops: seq<Op>)
    ensures var w := RunFrom(PowerUp(clock, cyclesPerFrame), ops);
      var d, left := FrameLengthAfter(cyclesPerFrame, ops), LastDeadline(clock, cyclesPerFrame, ops) - ClockAfter(clock, ops);
      !TapMode(w.km.mode) ==> (FramesLeft(w) != 0 <==> w.km.mode == PressSticky && d > 0 && left >= d)
  {
    var w := RunFrom(PowerUp(clock, cyclesPerFrame), ops);
    AlarmSafety(clock, cyclesPerFrame, ops);
    DeadlineIsLastTaps(clock, cyclesPerFrame, ops);
    if !TapMode(w.km.mode) {
      FramesLeftOutsideTaps(w);
    }
  }

  /** One way to get there: a binary tap of one key for five frames, then
      `press 7,7` on the same cycle. */
  lemma StaleFramesReported() returns (body: seq<Byte>, args: CString)
    ensures body == [1, 5, 0, 1, 1, 2] && args == "7,7"
    ensures var w := Step(Step(PowerUp(0, 100), BinTap(body)), Press(Some(args)));
      w.km.mode == PressSticky && FramesLeft(w) == 5
  {
    body, args := [1, 5, 0, 1, 1, 2], "7,7";
    StaleFramesAt(body, args);
  }

  lemma StaleFramesAt(body: seq<Byte>, args: CString)
    requires body == [1, 5, 0, 1, 1, 2] && args == "7,7"
    ensures var w := Step(Step(PowerUp(0, 100), BinTap(body)), Press(Some(args)));
      w.km.mode == PressSticky && FramesLeft(w) == 5
  {
    FiveFrameTap(body);
    SevenSeven(args);
    PositionAccepted(args, 7, 7);
    PressAfterTap(Step(PowerUp(0, 100), BinTap(body)), args);
  }

  lemma PressAfterTap(w: World, args: CString)
    requires PressRequest(Some(args)).Some?
    requires w.km.active && w.km.timeoutClk == 500 && w.host.clock == 0 && w.host.cyclesPerFrame == 100
    ensures var w' := Step(w, Press(Some(args))); w'.km.mode == PressSticky && FramesLeft(w') == 5
  {
    assert Request(Press(Some(args))) == PressRequest(Some(args));
  }

  lemma SevenSeven(args: string)
    requires args == "7,7"
    ensures args == KeyAt(7, 7).name
  {
    assert Decimal(7) == "7";
  }

  /** A printed position is an accepted argument of press. */
  lemma PositionAccepted(args: CString, row: int, col: int)
    requires -8 <= row <= 15 && 0 <= col <= 7 && args == KeyAt(row, col).name
    ensures PressRequest(Some(args)).Some?
  {
    PairReprintable(row, col);
    OneKeyParses(KeyAt(row, col));
    PressOf(args, [KeyAt(row, col)]);
  }

  lemma OneKeyParses(k: Key)
    requires Reprintable(k)
    ensures ParseArgs(k.name) == Parsed([k], -1)
  {
    assert Names([k]) == [k.name];
    PrintedKeysParse([k]);
  }

  lemma PressOf(args: CString, keys: seq<Key>)
    requires ParseArgs(args) == Parsed(keys, -1) && keys != [] && 0 < |args| < BUFFER_SIZE
    ensures PressRequest(Some(args)) == Some(Activation(keys, PressSticky, 0))
  {
  }

  lemma FiveFrameTap(body: seq<Byte>)
    requires body == [1, 5, 0, 1, 1, 2]
    ensures var w := Step(PowerUp(0, 100), BinTap(body));
      w.km.active && w.km.timeoutClk == 500 && w.host.clock == 0 && w.host.cyclesPerFrame == 100
  {
    var a := BinTapRequest(body).value;
    assert a.frames == 5;
  }
}
