/** What each keyboard operation does, said without the functions that do it: which
    keys a request holds, what a release releases, and which reads sample. */
module KmVerbs {
  import opened Common
  import opened Text
  import opened KeyList
  import opened KmModel
  import opened KmInvariants

  /** The list has a key at this position. */
  ghost predicate Lists(keys: seq<Key>, p: (int, int)) {
    exists i :: 0 <= i < |keys| && p == (keys[i].row, keys[i].col)
  }

  lemma PlacesAreListed(keys: seq<Key>, p: (int, int))
    ensures p in Places(keys) <==> Lists(keys, p)
  {
    if p in Places(keys) {
      var k :| k in keys && p == (k.row, k.col);
      var i :| 0 <= i < |keys| && keys[i] == k;
      assert Lists(keys, p);
    }
  }

  // ---- Requests -----------------------------------------------------------------

  /** A text argument the verbs accept. */
  ghost predicate Accepted(args: Option<CString>) {
    && args.Some? && 0 < |args.value| < 256
    && ParseArgs(args.value).Parsed? && ParseArgs(args.value).keys != []
  }

  ghost function Listed(args: Option<CString>): seq<Key>
    requires Accepted(args)
  {
    ParseArgs(args.value).keys
  }

  ghost function ListedFrames(args: Option<CString>): int
    requires Accepted(args)
  {
    ParseArgs(args.value).forFrames
  }

  lemma AcceptedIsParsed(args: Option<CString>)
    ensures AcceptedList(args).Some? <==> Accepted(args)
    ensures Accepted(args) ==> AcceptedList(args).value == Parsed(Listed(args), ListedFrames(args))
  {
    assert args.Some? ==> (args.value == "" <==> |args.value| == 0);
  }

  /** A hold of exactly these keys has just begun: their bits are set, those of the
      hold it superseded are not, and all others are as they were. */
  ghost predicate Began(w: World, w': World, keys: seq<Key>, mode: Mode) {
    && w'.km.active && w'.km.keys == keys && w'.km.mode == mode
    && w'.km.total == 0 && w'.km.sampling == 0 && w'.km.lastReason == NoReason
    && w'.km.pressClk == w.host.clock == w'.host.clock
    && w'.host.cyclesPerFrame == w.host.cyclesPerFrame
    && (forall i :: 0 <= i < |keys| ==> (keys[i].row, keys[i].col) in w'.host.bits)
    && (forall p :: p in w'.host.bits <==> Lists(keys, p) || (p in w.host.bits && !(w.km.active && Lists(w.km.keys, p))))
  }

  /** A tap's alarm and deadline: that many frames on, of 19656 cycles where the
      machine does not know. */
  ghost predicate Armed(w: World, w': World, frames: nat) {
    && w'.km.timeoutClk == w.host.clock + frames * (if w.host.cyclesPerFrame <= 0 then 19656 else w.host.cyclesPerFrame)
    && w'.host.alarm == Some(w'.km.timeoutClk)
  }

  lemma ActivateBegins(w: World, a: Activation)
    ensures Began(w, Activate(w, a), a.keys, a.mode)
  {
    Positive(a.frames, CpfOrPal(ReleaseNow(w, Manual).host));
    var w' := Activate(w, a);
    forall p ensures p in w'.host.bits <==> Lists(a.keys, p) || (p in w.host.bits && !(w.km.active && Lists(w.km.keys, p))) {
      PlacesAreListed(a.keys, p);
      PlacesAreListed(w.km.keys, p);
    }
    forall i | 0 <= i < |a.keys| ensures (a.keys[i].row, a.keys[i].col) in w'.host.bits {
      assert Lists(a.keys, (a.keys[i].row, a.keys[i].col));
    }
  }

  lemma ActivateArms(w: World, a: Activation)
    ensures a.mode != PressSticky ==> Armed(w, Activate(w, a), a.frames)
    ensures a.mode == PressSticky ==>
      && Activate(w, a).km.timeoutClk == w.km.timeoutClk
      && Activate(w, a).host.alarm == if w.km.active then None else w.host.alarm
  {
    var w1 := ReleaseNow(w, Manual);
    assert w1.host.clock == w.host.clock && w1.host.cyclesPerFrame == w.host.cyclesPerFrame;
    Positive(a.frames, CpfOrPal(w.host));
  }

  /** From any state, `tap` holds every key of an accepted line until its frames, 60
      without `for`, have passed, and does nothing for any other line. */
  lemma TapHoldsItsKeys(w: World, args: Option<CString>)
    ensures !Accepted(args) ==> Step(w, Tap(args)) == w
    ensures Accepted(args) ==>
      var w', n := Step(w, Tap(args)), ListedFrames(args);
      && Began(w, w', Listed(args), if n > 0 then TapFixed else TapObserved)
      && Armed(w, w', if n > 0 then n else 60)
  {
    AcceptedIsParsed(args);
    if Accepted(args) {
      var a := TapRequest(args).value;
      assert Step(w, Tap(args)) == Activate(w, a);
      ActivateBegins(w, a);
      ActivateArms(w, a);
    }
  }

  /** From any state, `press` holds every key of an accepted line without a deadline of
      its own, and does nothing for any other line. */
  lemma PressHoldsItsKeys(w: World, args: Option<CString>)
    ensures !Accepted(args) ==> Step(w, Press(args)) == w
    ensures Accepted(args) ==>
      var w' := Step(w, Press(args));
      && Began(w, w', Listed(args), PressSticky)
      && w'.km.timeoutClk == w.km.timeoutClk
      && w'.host.alarm == if w.km.active then None else w.host.alarm
  {
    AcceptedIsParsed(args);
    if Accepted(args) {
      var a := PressRequest(args).value;
      assert Step(w, Press(args)) == Activate(w, a);
      ActivateBegins(w, a);
      ActivateArms(w, a);
    }
  }

  /** A binary body with 1 to 16 pairs, all of them there. */
  ghost predicate WellFormedTap(body: seq<Byte>) {
    |body| >= 4 && 1 <= body[3] <= 16 && |body| >= 4 + 2 * body[3]
  }

  function SignedByte(b: Byte): int {
    if b >= 128 then b - 256 else b
  }

  ghost predicate KeysOfPairs(keys: seq<Key>, body: seq<Byte>)
    requires WellFormedTap(body)
  {
    && |keys| == body[3]
    && forall i :: 0 <= i < |keys| ==> AtPair(keys[i], body, i)
  }

  ghost predicate AtPair(k: Key, body: seq<Byte>, i: nat)
    requires 5 + 2 * i < |body|
  {
    k.row == SignedByte(body[4 + 2 * i]) && k.col == SignedByte(body[5 + 2 * i]) && k.kind == if k.row < 0 then 1 else 0
  }

  lemma {:induction false} PairKey(pairs: seq<Byte>, i: nat)
    requires 2 * i + 1 < |pairs|
    ensures i < |BinKeys(pairs)| && BinKeys(pairs)[i] == BinKey(pairs[2 * i], pairs[2 * i + 1])
    decreases i
  {
    if i > 0 {
      PairKey(pairs[2..], i - 1);
    }
  }

  lemma PairAt(body: seq<Byte>, keys: seq<Key>, i: nat)
    requires WellFormedTap(body) && i < body[3] && keys == BinKeys(body[4..4 + 2 * body[3]])
    ensures i < |keys| && AtPair(keys[i], body, i)
  {
    var pairs := body[4..4 + 2 * body[3]];
    PairKey(pairs, i);
    assert pairs[2 * i] == body[4 + 2 * i] && pairs[2 * i + 1] == body[5 + 2 * i];
  }

  lemma RequestedPairs(body: seq<Byte>)
    ensures BinTapRequest(body).Some? <==> WellFormedTap(body)
    ensures WellFormedTap(body) ==>
      var a, n := BinTapRequest(body).value, (body[1] as int) + 256 * (body[2] as int);
      && KeysOfPairs(a.keys, body)
      && a.mode == (if body[0] == 1 then TapFixed else TapObserved)
      && a.frames == (if n > 0 then n else 60)
  {
    if WellFormedTap(body) {
      var keys := BinTapRequest(body).value.keys;
      forall i | 0 <= i < |keys| ensures AtPair(keys[i], body, i) {
        PairAt(body, keys, i);
      }
    }
  }

  /** From any state, a binary tap holds the key of each pair, rows and columns being
      signed bytes, for its frames, or 60 if they are 0; it does nothing for a body
      that is not well formed. */
  lemma BinTapHoldsItsKeys(w: World, body: seq<Byte>)
    ensures !WellFormedTap(body) ==> Step(w, BinTap(body)) == w
    ensures WellFormedTap(body) ==>
      var w', n := Step(w, BinTap(body)), (body[1] as int) + 256 * (body[2] as int);
      && Began(w, w', w'.km.keys, if body[0] == 1 then TapFixed else TapObserved)
      && KeysOfPairs(w'.km.keys, body)
      && Armed(w, w', if n > 0 then n else 60)
  {
    RequestedPairs(body);
    if WellFormedTap(body) {
      var a := BinTapRequest(body).value;
      assert Step(w, BinTap(body)) == Activate(w, a);
      ActivateBegins(w, a);
      ActivateArms(w, a);
    }
  }

  // ---- Releases -------------------------------------------------------------------

  /** `left` is `held` without the keys at positions the list names: in order, and
      every other key as often as before. */
  ghost predicate Without(left: seq<Key>, held: seq<Key>, dropped: seq<Key>) {
    && Subsequence(left, held)
    && forall k :: multiset(left)[k] == if Lists(dropped, (k.row, k.col)) then 0 else multiset(held)[k]
  }

  lemma {:induction false} SubsequenceCons<T>(a: seq<T>, b: seq<T>, x: T)
    requires Subsequence(a, b)
    ensures Subsequence([x] + a, [x] + b) && Subsequence(a, [x] + b)
    decreases |b|
  {
    if a == [] {
      NothingBefore(b, x);
    } else {
      assert Init([x] + b) == [x] + Init(b) && Last([x] + b) == Last(b);
      assert Init([x] + a) == [x] + Init(a) && Last([x] + a) == Last(a);
      if Last(a) == Last(b) && Subsequence(Init(a), Init(b)) {
        SubsequenceCons(Init(a), Init(b), x);
      } else {
        SubsequenceCons(a, Init(b), x);
      }
    }
  }

  lemma {:induction false} NothingBefore<T>(b: seq<T>, x: T)
    ensures Subsequence([x] + [], [x] + b)
    decreases |b|
  {
    if b == [] {
      assert Init([x] + []) == [] && Init([x] + b) == [];
    } else {
      assert Init([x] + b) == [x] + Init(b);
      NothingBefore(Init(b), x);
    }
  }

  lemma WithoutStep(k: Key, left: seq<Key>, held: seq<Key>, dropped: seq<Key>)
    requires Without(left, held, dropped)
    ensures Lists(dropped, (k.row, k.col)) ==> Without(left, [k] + held, dropped)
    ensures !Lists(dropped, (k.row, k.col)) ==> Without([k] + left, [k] + held, dropped)
  {
    SubsequenceCons(left, held, k);
    assert multiset([k] + left) == multiset{k} + multiset(left) && multiset([k] + held) == multiset{k} + multiset(held);
  }

  lemma {:induction false} SurvivorsAreWithout(held: seq<Key>, dropped: seq<Key>)
    ensures Without(Surviving(held, Places(dropped)), held, dropped)
  {
    if held != [] {
      var k, left := held[0], Surviving(held[1..], Places(dropped));
      SurvivorsAreWithout(held[1..], dropped);
      PlacesAreListed(dropped, (k.row, k.col));
      WithoutStep(k, left, held[1..], dropped);
      assert held == [k] + held[1..] && [] + left == left;
    }
  }

  lemma SomeSurvive(held: seq<Key>, dropped: seq<Key>)
    ensures Surviving(held, Places(dropped)) != [] <==>
      exists i :: 0 <= i < |held| && !Lists(dropped, (held[i].row, held[i].col))
  {
    var left := Surviving(held, Places(dropped));
    SurvivingKeys(held, Places(dropped));
    if left != [] {
      assert left[0] in left && left[0] in held;
      var i :| 0 <= i < |held| && held[i] == left[0];
      PlacesAreListed(dropped, (held[i].row, held[i].col));
    }
    forall i | 0 <= i < |held| && !Lists(dropped, (held[i].row, held[i].col)) ensures left != [] {
      PlacesAreListed(dropped, (held[i].row, held[i].col));
      assert held[i] in held && held[i] in left;
    }
  }

  /** What releasing a list of keys must do: their bits go and no others; a hold goes
      on with the keys not listed, if there are any, and otherwise is over. */
  ghost predicate Released(w: World, w': World, ks: seq<Key>) {
    && (forall p :: p in w'.host.bits <==> p in w.host.bits && !Lists(ks, p))
    && w'.host.clock == w.host.clock && w'.host.cyclesPerFrame == w.host.cyclesPerFrame
    && (w'.km.active <==>
          w.km.active && exists i :: 0 <= i < |w.km.keys| && !Lists(ks, (w.km.keys[i].row, w.km.keys[i].col)))
    && (w'.km.active ==>
          Without(w'.km.keys, w.km.keys, ks) && w'.km == w.km.(keys := w'.km.keys) && w'.host.alarm == w.host.alarm)
    && (!w.km.active ==> w'.km == w.km && w'.host.alarm == w.host.alarm)
    && (w.km.active && !w'.km.active ==>
          && w'.host.alarm == None && w'.km.last.Some? && w'.km.last.value.keys == []
          && w'.km.last.value.reason == (if w.km.lastReason == Observed then Observed else Manual))
  }

  lemma ReleaseKeysReleases(w: World, ks: seq<Key>)
    requires Inv(w)
    ensures Released(w, ReleaseKeys(w, ks), ks)
  {
    var left := Surviving(w.km.keys, Places(ks));
    SurvivorsAreWithout(w.km.keys, ks);
    SomeSurvive(w.km.keys, ks);
    assert Places([]) == {};
    forall p ensures p in ReleaseKeys(w, ks).host.bits <==> p in w.host.bits && !Lists(ks, p) {
      PlacesAreListed(ks, p);
    }
  }

  lemma ReleaseRefused(w: World, args: Option<CString>)
    requires args.Some? && args.value != "" && AcceptedList(args).None?
    ensures Step(w, ReleaseOp(args)) == w
  {
  }

  lemma ReleaseIsByKeys(w: World, args: Option<CString>)
    requires Accepted(args) && AcceptedList(args) == Some(Parsed(Listed(args), ListedFrames(args)))
    ensures Step(w, ReleaseOp(args)) == ReleaseKeys(w, Listed(args))
  {
  }

  /** From any state that keeps the alarm invariant, `release` of an accepted line
      releases exactly the keys it lists; any other line does nothing. */
  lemma ReleaseReleasesItsKeys(w: World, args: Option<CString>)
    requires Inv(w) && args.Some? && args.value != ""
    ensures !Accepted(args) ==> Step(w, ReleaseOp(args)) == w
    ensures Accepted(args) ==> Released(w, Step(w, ReleaseOp(args)), Listed(args))
  {
    AcceptedIsParsed(args);
    if Accepted(args) {
      ReleaseIsByKeys(w, args);
      ReleaseKeysReleases(w, Listed(args));
    } else {
      ReleaseRefused(w, args);
    }
  }

  /** From any state, `release` alone ends the hold and clears the matrix; only keys
      outside it that are not held stay down. */
  lemma ReleaseAloneReleasesAll(w: World, args: Option<CString>)
    requires args.None? || args.value == ""
    ensures var w' := Step(w, ReleaseOp(args));
      && !w'.km.active
      && (forall p :: p in w'.host.bits <==> p in w.host.bits && p.0 < 0 && !(w.km.active && Lists(w.km.keys, p)))
      && (w.km.active ==> w'.host.alarm == None && w'.km.last.Some? && w'.km.last.value.keys == w.km.keys)
  {
    var w' := Step(w, ReleaseOp(args));
    forall p ensures p in w'.host.bits <==> p in w.host.bits && p.0 < 0 && !(w.km.active && Lists(w.km.keys, p)) {
      PlacesAreListed(w.km.keys, p);
    }
  }

  lemma ReleaseNowClears(w: World, reason: Reason)
    requires w.km.active
    ensures forall p :: p in ReleaseNow(w, reason).host.bits <==> p in w.host.bits && !Lists(w.km.keys, p)
  {
    forall p ensures p in ReleaseNow(w, reason).host.bits <==> p in w.host.bits && !Lists(w.km.keys, p) {
      PlacesAreListed(w.km.keys, p);
    }
  }

  /** A due alarm ends the hold: its keys go up and the alarm is gone; the reason is
      the observation, if there was one, and otherwise the timeout.  An alarm that is
      not due does nothing. */
  lemma AlarmEndsTheHold(w: World)
    requires Inv(w)
    ensures !AlarmDue(w) ==> Step(w, Fire) == w
    ensures AlarmDue(w) ==>
      var w' := Step(w, Fire);
      && !w'.km.active && w'.host.alarm == None && w'.host.clock == w.host.clock
      && (forall p :: p in w'.host.bits <==> p in w.host.bits && !Lists(w.km.keys, p))
      && w'.km.last.Some? && w'.km.last.value.keys == w.km.keys && w'.km.last.value.mode == w.km.mode
      && w'.km.last.value.reason == (if w.km.lastReason == Observed then Observed else Timeout)
  {
    if AlarmDue(w) {
      var reason := if w.km.lastReason == Observed then Observed else Timeout;
      assert Step(w, Fire) == ReleaseNow(w, reason);
      ReleaseNowClears(w, reason);
    }
  }

  // ---- Reads ------------------------------------------------------------------------

  /** Bit i of the mask is 0, as a number. */
  predicate LineLow(mask: bv8, i: int) {
    0 <= i <= 7 && (mask as int) / Power(2, i) % 2 == 0
  }

  lemma Bit0(m: bv8)
    ensures m & 1 == 0 <==> (m as int) / 1 % 2 == 0
  {
  }

  lemma Bit1(m: bv8)
    ensures m & 2 == 0 <==> (m as int) / 2 % 2 == 0
  {
  }

  lemma Bit2(m: bv8)
    ensures m & 4 == 0 <==> (m as int) / 4 % 2 == 0
  {
  }

  lemma Bit3(m: bv8)
    ensures m & 8 == 0 <==> (m as int) / 8 % 2 == 0
  {
  }

  lemma Bit4(m: bv8)
    ensures m & 16 == 0 <==> (m as int) / 16 % 2 == 0
  {
  }

  lemma Bit5(m: bv8)
    ensures m & 32 == 0 <==> (m as int) / 32 % 2 == 0
  {
  }

  lemma Bit6(m: bv8)
    ensures m & 64 == 0 <==> (m as int) / 64 % 2 == 0
  {
  }

  lemma Bit7(m: bv8)
    ensures m & 128 == 0 <==> (m as int) / 128 % 2 == 0
  {
  }

  lemma Powers(i: nat)
    requires i < 8
    ensures Power(2, i) == if i == 0 then 1 else if i == 1 then 2 else if i == 2 then 4 else if i == 3 then 8
                           else if i == 4 then 16 else if i == 5 then 32 else if i == 6 then 64 else 128
  {
    assert Power(2, 1) == 2 && Power(2, 2) == 4 && Power(2, 3) == 8 && Power(2, 4) == 16;
    assert Power(2, 5) == 32 && Power(2, 6) == 64 && Power(2, 7) == 128;
  }

  lemma LowIsSelected(mask: bv8, i: int)
    ensures Selected(mask, i) <==> LineLow(mask, i)
  {
    if 0 <= i <= 7 {
      Powers(i);
      Bit0(mask);
      Bit1(mask);
      Bit2(mask);
      Bit3(mask);
      Bit4(mask);
      Bit5(mask);
      Bit6(mask);
      Bit7(mask);
    }
  }

  /** Some held matrix key lies on a row (a column) whose line is low. */
  ghost predicate RowRead(keys: seq<Key>, mask: bv8) {
    exists i :: 0 <= i < |keys| && keys[i].kind == 0 && LineLow(mask, keys[i].row)
  }

  ghost predicate ColRead(keys: seq<Key>, mask: bv8) {
    exists i :: 0 <= i < |keys| && keys[i].kind == 0 && LineLow(mask, keys[i].col)
  }

  lemma RowReadIsSampled(keys: seq<Key>, mask: bv8)
    ensures RowSampled(keys, mask) <==> RowRead(keys, mask)
  {
    forall i | 0 <= i < |keys| ensures Selected(mask, keys[i].row) <==> LineLow(mask, keys[i].row) {
      LowIsSelected(mask, keys[i].row);
    }
  }

  lemma ColReadIsSampled(keys: seq<Key>, mask: bv8)
    ensures ColSampled(keys, mask) <==> ColRead(keys, mask)
  {
    forall i | 0 <= i < |keys| ensures Selected(mask, keys[i].col) <==> LineLow(mask, keys[i].col) {
      LowIsSelected(mask, keys[i].col);
    }
  }

  /** One read of an active hold: both counters, and for an observed tap not sampled
      before the reason and the alarm on the next cycle.  Nothing else changes. */
  ghost predicate Counted(w: World, w': World, sampling: bool) {
    var first := sampling && w.km.mode == TapObserved && w.km.lastReason == NoReason;
    && w'.km == w.km.(total := (w.km.total + 1) % 0x1_0000_0000,
                      sampling := (w.km.sampling + if sampling then 1 else 0) % 0x1_0000_0000,
                      lastReason := if first then Observed else w.km.lastReason)
    && w'.host == w.host.(alarm := if first then Some(w.host.clock + 1) else w.host.alarm)
  }

  lemma CountReadCounts(w: World, sampled: bool)
    requires w.km.active && w.km.sampling < TWO32
    ensures Counted(w, CountRead(w, sampled), sampled)
  {
  }

  lemma SampledIsRead(w: World, op: Op)
    ensures op.PaRead? ==> (Sampled(w, op) <==> RowRead(w.km.keys, op.mask))
    ensures op.PbRead? ==> (Sampled(w, op) <==> ColRead(w.km.keys, op.mask))
  {
    if op.PaRead? {
      RowReadIsSampled(w.km.keys, op.mask);
    } else if op.PbRead? {
      ColReadIsSampled(w.km.keys, op.mask);
    }
  }

  lemma ReadCounts(w: World, op: Op, sampled: bool)
    requires (op.PaRead? || op.PbRead?) && sampled == Sampled(w, op) && w.km.sampling < TWO32
    ensures if w.km.active then Counted(w, Step(w, op), sampled) else Step(w, op) == w
  {
    assert Step(w, op) == CountRead(w, sampled);
    if w.km.active {
      CountReadCounts(w, sampled);
    }
  }

  /** A read of port A samples iff a held matrix key's row line is low, a read of port B
      iff its column line is; reads count only while keys are held. */
  lemma ReadsSample(w: World, op: Op, sampled: bool)
    requires Inv(w) && (op.PaRead? || op.PbRead?)
    requires sampled == if op.PaRead? then RowRead(w.km.keys, op.mask) else ColRead(w.km.keys, op.mask)
    ensures if w.km.active then Counted(w, Step(w, op), sampled) else Step(w, op) == w
  {
    SampledIsRead(w, op);
    ReadCounts(w, op, sampled);
  }
}
