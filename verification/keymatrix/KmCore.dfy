/** The injector as the program has it: fixed arrays and counters changed in place
    through a host, proved against the state machine of KmModel. */
module KmCore {
  import opened Common
  import opened Text
  import opened KeyList
  import opened KeyParser
  import opened KmModel

  /** The emulator behind the callbacks. */
  class MatrixHost {
    var bits: set<(int, int)>
    var clock: nat
    var alarm: Option<nat>
    var cyclesPerFrame: int

    constructor (clock: nat, cyclesPerFrame: int)
      ensures View() == Host({}, clock, None, cyclesPerFrame)
    {
      bits, this.clock, alarm, this.cyclesPerFrame := {}, clock, None, cyclesPerFrame;
    }

    function View(): Host
      reads this
    {
      Host(bits, clock, alarm, cyclesPerFrame)
    }

    method SetKeyarrAny(row: int, col: int, value: bool)
      modifies `bits
      ensures bits == if value then old(bits) + {(row, col)} else old(bits) - {(row, col)}
    {
      bits := if value then bits + {(row, col)} else bits - {(row, col)};
    }

    method ClearKeymatrix()
      modifies `bits
      ensures bits == OffMatrix(old(bits))
    {
      bits := OffMatrix(bits);
    }

    method SetAlarm(clk: nat)
      modifies `alarm
      ensures alarm == Some(clk)
    {
      alarm := Some(clk);
    }

    method CancelAlarm()
      modifies `alarm
      ensures alarm == None
    {
      alarm := None;
    }

    /** Set or clear a list of keys, one by one. */
    method ApplyBits(keys: array<Key>, n: nat, value: bool)
      requires n <= keys.Length
      modifies `bits
      ensures bits == if value then old(bits) + Places(keys[..n]) else old(bits) - Places(keys[..n])
    {
      for i := 0 to n
        invariant bits == if value then old(bits) + Places(keys[..i]) else old(bits) - Places(keys[..i])
      {
        SetKeyarrAny(keys[i].row, keys[i].col, value);
        assert keys[..i + 1] == keys[..i] + [keys[i]];
        PlacesSnoc(keys[..i], keys[i]);
      }
    }
  }

  lemma PlacesSnoc(keys: seq<Key>, k: Key)
    ensures Places(keys + [k]) == Places(keys) + {(k.row, k.col)}
  {
    assert forall x :: x in keys + [k] <==> x in keys || x == k;
  }

  /** for (i = 0; i < n; i++) to[i] = from[i]; */
  method CopyKeys(from: array<Key>, to: array<Key>, n: nat)
    requires n <= from.Length && n <= to.Length && from != to
    modifies to
    ensures to[..n] == from[..n]
  {
    for i := 0 to n
      invariant to[..i] == from[..i]
    {
      to[i] := from[i];
      assert to[..i + 1] == to[..i] + [from[i]] == from[..i + 1];
    }
  }

  method PutByte(out: array<Byte>, i: nat, b: Byte)
    requires i < out.Length
    modifies out
    ensures out[..i + 1] == old(out[..i]) + [b]
    ensures forall j :: i < j < out.Length ==> out[j] == old(out[j])
  {
    out[i] := b;
  }

  /** put_le16 and put_le32: the k low bytes of a number. */
  method PutNumber(out: array<Byte>, at: nat, n: nat, k: nat)
    requires at + k <= out.Length
    modifies out
    ensures out[..at + k] == old(out[..at]) + LittleEndian(n, k)
    ensures forall j :: at + k <= j < out.Length ==> out[j] == old(out[j])
  {
    var rest := n;
    ghost var todo := LittleEndian(n, k);
    for i := 0 to k
      invariant todo == LittleEndian(rest, k - i)
      invariant out[..at + i] + todo == old(out[..at]) + LittleEndian(n, k)
      invariant forall j :: at + k <= j < out.Length ==> out[j] == old(out[j])
    {
      PutByte(out, at + i, rest % 0x100);
      rest, todo := rest / 0x100, todo[1..];
    }
  }

  /** One turn of the pair loop. */
  lemma NextPair(body: seq<Byte>, i: nat, end: nat, todo: seq<Key>, key: Key)
    requires i + 2 <= end <= |body| && todo == BinKeys(body[i..end]) && key == BinKey(body[i], body[i + 1])
    ensures todo != [] && todo[0] == key && todo[1..] == BinKeys(body[i + 2..end])
  {
    var pairs := body[i..end];
    assert pairs[0] == body[i] && pairs[1] == body[i + 1] && pairs[2..] == body[i + 2..end];
  }

  lemma Shift(done: seq<Key>, todo: seq<Key>, key: Key)
    requires todo != [] && todo[0] == key
    ensures done + todo == (done + [key]) + todo[1..]
  {
  }

  /** One turn of the survivor loop. */
  lemma NextSurvivor(keys: seq<Key>, j: nat, dropped: set<(int, int)>, done: seq<Key>)
    requires j < |keys|
    ensures done + Surviving(keys[j..], dropped) ==
      (if (keys[j].row, keys[j].col) in dropped then done else done + [keys[j]]) + Surviving(keys[j + 1..], dropped)
  {
    var rest := keys[j..];
    assert rest[0] == keys[j] && rest[1..] == keys[j + 1..];
    Regroup(done, [keys[j]], Surviving(rest[1..], dropped));
  }

  /** km_core_t */
  class Keyboard {
    const host: MatrixHost
    var active: bool
    var mode: Mode
    const keys: array<Key>
    var nKeys: nat
    var readsTotal: nat
    var readsSampling: nat
    var timeoutClk: nat
    var lastReason: Reason
    var pressClk: nat
    // the record of the last release
    var recValid: bool
    const recKeys: array<Key>
    var recNKeys: nat
    var recTotal: nat
    var recSampling: nat
    var recReason: Reason
    var recMode: Mode
    var recFramesHeld: nat

    ghost predicate Valid()
      reads this
    {
      keys.Length == MAX_KEYS && recKeys.Length == MAX_KEYS && keys != recKeys && nKeys <= MAX_KEYS && recNKeys <= MAX_KEYS
    }

    ghost function Recorded(): Option<Report>
      requires Valid()
      reads this, recKeys
    {
      if recValid then Some(Report(recKeys[..recNKeys], recTotal, recSampling, recReason, recMode, recFramesHeld)) else None
    }

    ghost function View(): World
      requires Valid()
      reads this, keys, recKeys, host
    {
      World(Injector(active, mode, keys[..nKeys], readsTotal, readsSampling, timeoutClk, lastReason, pressClk, Recorded()),
            host.View())
    }

    constructor (host: MatrixHost)
      ensures Valid() && this.host == host && fresh(keys) && fresh(recKeys)
      ensures View() == World(IDLE, host.View())
    {
      this.host := host;
      active, mode, nKeys, readsTotal, readsSampling, timeoutClk, lastReason, pressClk := false, Idle, 0, 0, 0, 0, NoReason, 0;
      recValid, recNKeys, recTotal, recSampling, recReason, recMode, recFramesHeld := false, 0, 0, 0, NoReason, Idle, 0;
      keys := new Key[MAX_KEYS];
      recKeys := new Key[MAX_KEYS];
    }

    // ---- Releasing ------------------------------------------------------------

    /** Whole frames since the press, capped at uint16_t. */
    method HeldFrames() returns (f: nat)
      requires Valid()
      ensures f == FramesHeld(View())
    {
      var perFrame, now := host.cyclesPerFrame, host.clock;
      f := 0;
      if perFrame > 0 && now >= pressClk {
        var frames := (now - pressClk) / perFrame;
        QuotientNotNegative(now - pressClk, perFrame);
        f := if frames > 65535 then 65535 else frames;
      }
    }

    /** Copy the hold into the release record. */
    method RecordRelease(reason: Reason)
      requires Valid()
      modifies this, recKeys
      ensures Valid() && Recorded() == Some(ReportNow(old(View()), reason))
      ensures View().km == old(View()).km.(last := Recorded())
      ensures keys[..] == old(keys[..])
    {
      var frames := HeldFrames();
      CopyKeys(keys, recKeys, nKeys);
      RecordFields(reason, frames);
    }

    method RecordFields(reason: Reason, frames: nat)
      requires Valid() && recKeys[..nKeys] == keys[..nKeys]
      modifies `recValid, `recNKeys, `recTotal, `recSampling, `recReason, `recMode, `recFramesHeld
      ensures Valid() && Recorded() ==
        Some(Report(keys[..nKeys], readsTotal, readsSampling, if lastReason != NoReason then lastReason else reason, mode, frames))
    {
      recValid, recNKeys := true, nKeys;
      recTotal, recSampling := readsTotal, readsSampling;
      recReason := if lastReason != NoReason then lastReason else reason;
      recMode, recFramesHeld := mode, frames;
    }

    /** km_release_now */
    method ReleaseNow(reason: Reason)
      requires Valid()
      modifies this, recKeys, host
      ensures Valid() && View() == KmModel.ReleaseNow(old(View()), reason)
    {
      if !active {
        return;
      }
      ghost var w := View();
      host.ApplyBits(keys, nKeys, false);
      assert View() == w.(host := w.host.(bits := w.host.bits - Places(w.km.keys)));
      RecordRelease(reason);
      GoIdle();
    }

    /** Forget the hold and unset the alarm. */
    method GoIdle()
      requires Valid()
      modifies this, host`alarm
      ensures Valid() && Recorded() == old(Recorded())
      ensures var w := old(View());
        View() == World(
          w.km.(active := false, mode := Idle, keys := [], total := 0, sampling := 0, lastReason := NoReason),
          w.host.(alarm := None))
    {
      active, nKeys, mode := false, 0, Idle;
      readsTotal, readsSampling, lastReason := 0, 0, NoReason;
      host.CancelAlarm();
    }

    /** km_core_on_alarm */
    method OnAlarm()
      requires Valid()
      modifies this, recKeys, host
      ensures Valid() && View() == KmModel.OnAlarm(old(View()))
    {
      var r := if lastReason != NoReason then lastReason else Timeout;
      ReleaseNow(r);
    }

    // ---- Holding ----------------------------------------------------------------

    /** What the three activating verbs share: supersede, take over the keys, press
        them, and start counting. */
    method Hold(newKeys: array<Key>, n: nat, newMode: Mode)
      requires Valid() && n <= MAX_KEYS && n <= newKeys.Length && newKeys != keys && newKeys != recKeys
      requires newMode != Idle
      modifies this, keys, recKeys, host
      ensures Valid()
      ensures var w := KmModel.ReleaseNow(old(View()), Manual);
        View() == World(
          w.km.(active := true, mode := newMode, keys := old(newKeys[..n]), total := 0, sampling := 0,
                lastReason := NoReason, pressClk := w.host.clock),
          w.host.(bits := w.host.bits + Places(old(newKeys[..n]))))
    {
      ReleaseNow(Manual);
      Begin(newKeys, n, newMode);
    }

    /** Take over the keys, press them and start counting. */
    method Begin(newKeys: array<Key>, n: nat, newMode: Mode)
      requires Valid() && n <= MAX_KEYS && n <= newKeys.Length && newKeys != keys && newKeys != recKeys
      modifies this, keys, host`bits
      ensures Valid() && Recorded() == old(Recorded())
      ensures var w := old(View());
        View() == World(
          w.km.(active := true, mode := newMode, keys := newKeys[..n], total := 0, sampling := 0,
                lastReason := NoReason, pressClk := w.host.clock),
          w.host.(bits := w.host.bits + Places(newKeys[..n])))
    {
      TakeKeys(newKeys, n);
      mode := newMode;
      readsTotal, readsSampling, lastReason := 0, 0, NoReason;
      active := true;
      pressClk := host.clock;
    }

    method TakeKeys(newKeys: array<Key>, n: nat)
      requires Valid() && n <= MAX_KEYS && n <= newKeys.Length && newKeys != keys
      modifies keys, `nKeys, host`bits
      ensures Valid() && keys[..nKeys] == newKeys[..n] && host.bits == old(host.bits) + Places(newKeys[..n])
    {
      CopyKeys(newKeys, keys, n);
      nKeys := n;
      host.ApplyBits(keys, nKeys, true);
    }

    /** Set the deadline of a tap and arm the alarm. */
    method Arm(frames: nat)
      requires Valid()
      modifies `timeoutClk, host`alarm
      ensures Valid() && Recorded() == old(Recorded())
      ensures var w := old(View());
        var end := w.km.pressClk + frames * CpfOrPal(w.host);
        View() == World(w.km.(timeoutClk := end), w.host.(alarm := Some(end)))
    {
      var perFrame := if host.cyclesPerFrame <= 0 then PAL_CYCLES_PER_FRAME else host.cyclesPerFrame;
      timeoutClk := pressClk + frames * perFrame;
      host.SetAlarm(timeoutClk);
    }

    /** A tap of the given keys. */
    method StartTap(newKeys: array<Key>, n: nat, newMode: Mode, frames: nat)
      requires Valid() && n <= MAX_KEYS && n <= newKeys.Length && newKeys != keys && newKeys != recKeys
      requires newMode == TapObserved || newMode == TapFixed
      modifies this, keys, recKeys, host
      ensures Valid() && View() == Activate(old(View()), Activation(old(newKeys[..n]), newMode, frames))
    {
      Hold(newKeys, n, newMode);
      Arm(frames);
    }

    /** Parse a verb's arguments into a fresh key array; None unless they name at
        least one key and fit the buffer. */
    method ParseVerb(args: CString) returns (r: Option<ParseResult>, parsed: array<Key>)
      requires args != ""
      ensures r == AcceptedList(Some(args))
      ensures fresh(parsed) && parsed.Length == MAX_KEYS
      ensures r.Some? ==> r.value.Parsed? && 1 <= |r.value.keys| <= MAX_KEYS && parsed[..|r.value.keys|] == r.value.keys
    {
      r := None;
      parsed := new Key[MAX_KEYS];
      var buf := new char[BUFFER_SIZE];
      var ok := CopyArgs(args, buf);
      if !ok {
        return;
      }
      var result := ParseKeyList(buf, |args|, parsed);
      if result.Parsed? && |result.keys| != 0 {
        r := Some(result);
      }
    }

    /** km_core_tap */
    method Tap(args: Option<CString>)
      requires Valid()
      modifies this, keys, recKeys, host
      ensures Valid() && View() == Step(old(View()), KmModel.Tap(args))
    {
      if args.None? || args.value == "" {
        return;
      }
      var r, parsed := ParseVerb(args.value);
      if r.None? {
        return;
      }
      var n := |r.value.keys|;
      if r.value.forFrames > 0 {
        StartTap(parsed, n, TapFixed, r.value.forFrames);
      } else {
        StartTap(parsed, n, TapObserved, DEFAULT_TIMEOUT_FRAMES);
      }
    }

    /** km_core_press: no alarm, and the old deadline stays behind. */
    method Press(args: Option<CString>)
      requires Valid()
      modifies this, keys, recKeys, host
      ensures Valid() && View() == Step(old(View()), KmModel.Press(args))
    {
      if args.None? || args.value == "" {
        return;
      }
      var r, parsed := ParseVerb(args.value);
      if r.Some? {
        Hold(parsed, |r.value.keys|, PressSticky);
      }
    }

    // ---- Releasing by name --------------------------------------------------------

    /** Is a held key among those being released? */
    method IsDropped(key: Key, released: array<Key>, n: nat) returns (dropped: bool)
      requires n <= released.Length
      ensures dropped <==> (key.row, key.col) in Places(released[..n])
    {
      dropped := false;
      for k := 0 to n
        invariant dropped <==> (key.row, key.col) in Places(released[..k])
      {
        assert released[..k + 1] == released[..k] + [released[k]];
        PlacesSnoc(released[..k], released[k]);
        if key.row == released[k].row && key.col == released[k].col {
          dropped := true;
          break;
        }
      }
      if dropped {
        assert (key.row, key.col) in Places(released[..n]);
      }
    }

    /** The tracked keys not being released. */
    method Survivors(released: array<Key>, n: nat) returns (surviving: array<Key>, nSurviving: nat)
      requires Valid() && n <= released.Length
      ensures fresh(surviving) && surviving.Length == MAX_KEYS && nSurviving <= nKeys
      ensures surviving[..nSurviving] == Surviving(keys[..nKeys], Places(released[..n]))
    {
      ghost var held, dropped := keys[..nKeys], Places(released[..n]);
      surviving := new Key[MAX_KEYS];
      nSurviving := 0;
      for j := 0 to nKeys
        invariant nSurviving <= j
        invariant surviving[..nSurviving] + Surviving(held[j..], dropped) == Surviving(held, dropped)
      {
        var key := keys[j];
        var drop := IsDropped(key, released, n);
        NextSurvivor(held, j, dropped, surviving[..nSurviving]);
        if !drop {
          PutKey(surviving, nSurviving, key);
          nSurviving := nSurviving + 1;
        }
      }
    }

    /** Keep only the survivors. */
    method DropKeys(released: array<Key>, n: nat)
      requires Valid() && n <= released.Length && released != keys
      modifies keys, `nKeys
      ensures Valid() && keys[..nKeys] == Surviving(old(keys[..nKeys]), Places(released[..n]))
    {
      var surviving, nSurviving := Survivors(released, n);
      nKeys := nSurviving;
      CopyKeys(surviving, keys, nSurviving);
    }

    /** The part of km_core_release after parsing. */
    method ReleaseListed(released: array<Key>, n: nat)
      requires Valid() && n <= released.Length && released != keys && released != recKeys
      modifies this, keys, recKeys, host
      ensures Valid() && View() == ReleaseKeys(old(View()), old(released[..n]))
    {
      host.ApplyBits(released, n, false);
      if active {
        DropKeys(released, n);
        if nKeys == 0 {
          ReleaseNow(Manual);
        }
      }
    }

    /** km_core_release */
    method Release(args: Option<CString>)
      requires Valid()
      modifies this, keys, recKeys, host
      ensures Valid() && View() == Step(old(View()), ReleaseOp(args))
    {
      if args.None? || args.value == "" {
        if active {
          ReleaseNow(Manual);
        }
        host.ClearKeymatrix();
        return;
      }
      var r, parsed := ParseVerb(args.value);
      if r.Some? {
        ReleaseListed(parsed, |r.value.keys|);
      }
    }

    // ---- Observing --------------------------------------------------------------------

    /** km_observe, with the count of all reads its callers do first. */
    method Observe(sampled: bool)
      requires Valid() && active
      modifies this, host`alarm
      ensures Valid() && View() == CountRead(old(View()), sampled)
    {
      readsTotal := (readsTotal + 1) % TWO32;
      if sampled {
        readsSampling := (readsSampling + 1) % TWO32;
        if mode == TapObserved && lastReason == NoReason {
          lastReason := Observed;
          host.SetAlarm(host.clock + 1);
        }
      }
    }

    /** Does a held matrix key lie on a selected row? */
    method AnyRowSelected(rowScanMask: bv8) returns (sampled: bool)
      requires Valid()
      ensures sampled == RowSampled(keys[..nKeys], rowScanMask)
    {
      for i := 0 to nKeys
        invariant forall j :: 0 <= j < i ==> !(keys[j].kind == 0 && Selected(rowScanMask, keys[j].row))
      {
        if keys[i].kind != 0 || keys[i].row < 0 || keys[i].row > 7 {
          continue;
        }
        if rowScanMask & Bit8(keys[i].row) == 0 {
          assert keys[..nKeys][i] == keys[i];
          return true;
        }
      }
      sampled := false;
    }

    /** km_core_cia1_pa_read */
    method PaRead(rowScanMask: bv8)
      requires Valid()
      modifies this, host`alarm
      ensures Valid() && View() == Step(old(View()), KmModel.PaRead(rowScanMask))
    {
      if active {
        var sampled := AnyRowSelected(rowScanMask);
        Observe(sampled);
      }
    }

    /** Does a held matrix key lie on a selected column? */
    method AnyColSelected(colScanMask: bv8) returns (sampled: bool)
      requires Valid()
      ensures sampled == ColSampled(keys[..nKeys], colScanMask)
    {
      for i := 0 to nKeys
        invariant forall j :: 0 <= j < i ==> !(keys[j].kind == 0 && Selected(colScanMask, keys[j].col))
      {
        if keys[i].kind != 0 || keys[i].col < 0 || keys[i].col > 7 {
          continue;
        }
        if colScanMask & Bit8(keys[i].col) == 0 {
          assert keys[..nKeys][i] == keys[i];
          return true;
        }
      }
      sampled := false;
    }

    /** km_core_cia1_pb_read */
    method PbRead(colScanMask: bv8)
      requires Valid()
      modifies this, host`alarm
      ensures Valid() && View() == Step(old(View()), KmModel.PbRead(colScanMask))
    {
      if active {
        var sampled := AnyColSelected(colScanMask);
        Observe(sampled);
      }
    }

    // ---- Binary monitor ---------------------------------------------------------------

    /** One (row, col) pair of a binary request, the first of those to come. */
    static method DecodePair(body: seq<Byte>, i: nat, ghost end: nat, ghost todo: seq<Key>) returns (key: Key)
      requires i + 2 <= end <= |body| && todo == BinKeys(body[i..end])
      ensures todo != [] && todo[0] == key && todo[1..] == BinKeys(body[i + 2..end])
    {
      key := BinKey(body[i], body[i + 1]);
      NextPair(body, i, end, todo, key);
    }

    /** The key pairs of a binary request. */
    static method DecodePairs(body: seq<Byte>, count: nat) returns (decoded: array<Key>)
      requires count <= MAX_KEYS && |body| >= 4 + 2 * count
      ensures fresh(decoded) && decoded.Length == MAX_KEYS && decoded[..count] == BinKeys(body[4..4 + 2 * count])
    {
      decoded := new Key[MAX_KEYS];
      ghost var end := 4 + 2 * count;
      ghost var all := BinKeys(body[4..end]);
      ghost var todo := all;
      for i := 0 to count
        invariant |todo| == count - i && todo == BinKeys(body[4 + 2 * i..end])
        invariant decoded[..i] + todo == all
      {
        var key := DecodePair(body, 4 + i * 2, end, todo);
        Shift(decoded[..i], todo, key);
        PutKey(decoded, i, key);
        todo := todo[1..];
      }
    }

    /** km_core_binmon_tap: 0, or -1 for a malformed body. */
    method BinmonTap(body: seq<Byte>) returns (status: int)
      requires Valid()
      modifies this, keys, recKeys, host
      ensures Valid() && View() == Step(old(View()), BinTap(body))
      ensures status == if BinTapRequest(body).Some? then 0 else -1
    {
      if |body| < 4 {
        return -1;
      }
      var frames: nat, count: nat := (body[1] as int) + 0x100 * (body[2] as int), body[3];
      if |body| < 4 + 2 * count {
        return -1;
      }
      if count == 0 || count > MAX_KEYS {
        return -1;
      }
      var decoded := DecodePairs(body, count);
      var tapMode := if body[0] == 1 then TapFixed else TapObserved;
      if frames == 0 {
        frames := DEFAULT_TIMEOUT_FRAMES;
      }
      assert BinTapRequest(body) == Some(Activation(decoded[..count], tapMode, frames));
      StartTap(decoded, count, tapMode, frames);
      status := 0;
    }

    /** The live matrix rows, read from the host one by one. */
    method PutRows(out: array<Byte>)
      requires Valid() && out.Length >= RESPONSE_SIZE
      modifies out
      ensures out[..8] == MatrixRows(host.bits, 8)
      ensures forall j :: 8 <= j < out.Length ==> out[j] == old(out[j])
    {
      for i := 0 to 8
        invariant out[..i] == MatrixRows(host.bits, i)
        invariant forall j :: 8 <= j < out.Length ==> out[j] == old(out[j])
      {
        PutByte(out, i, RowByte(host.bits, i));
      }
    }

    /** The rows, the custom keys and three reserved bytes. */
    method PutMatrix(out: array<Byte>)
      requires Valid() && out.Length >= RESPONSE_SIZE
      modifies out
      ensures out[..12] == MatrixRows(host.bits, 8) + [CustomByte(host.bits), 0, 0, 0]
      ensures forall j :: 12 <= j < out.Length ==> out[j] == old(out[j])
    {
      PutRows(out);
      PutByte(out, 8, CustomByte(host.bits));
      PutByte(out, 9, 0);
      PutByte(out, 10, 0);
      PutByte(out, 11, 0);
    }

    /** Two counters, a reason and a number of keys. */
    static method PutCounts(out: array<Byte>, total: nat, sampling: nat, reason: Reason, n: nat)
      requires out.Length >= RESPONSE_SIZE && n <= MAX_KEYS
      modifies out
      ensures out[..22] == old(out[..12]) + (LittleEndian(total, 4) + LittleEndian(sampling, 4) + [ReasonCode(reason), n])
      ensures forall j :: 22 <= j < out.Length ==> out[j] == old(out[j])
    {
      PutNumber(out, 12, total, 4);
      PutNumber(out, 16, sampling, 4);
      PutByte(out, 20, ReasonCode(reason));
      PutByte(out, 21, n);
    }

    /** The counts of the current hold, or else of the last, or else zeros. */
    method PutHold(out: array<Byte>)
      requires Valid() && out.Length >= RESPONSE_SIZE
      modifies out
      ensures out[..22] == old(out[..12]) + HoldBytes(View())
      ensures forall j :: 22 <= j < out.Length ==> out[j] == old(out[j])
    {
      if active {
        PutCounts(out, readsTotal, readsSampling, lastReason, nKeys);
      } else if recValid {
        PutCounts(out, recTotal, recSampling, recReason, recNKeys);
      } else {
        PutCounts(out, 0, 0, NoReason, 0);
      }
    }

    /** Whole frames until the deadline. */
    method LeftFrames() returns (f: nat)
      requires Valid()
      ensures f == FramesLeft(View())
    {
      f := 0;
      if active && timeoutClk > host.clock {
        var perFrame := host.cyclesPerFrame;
        if perFrame > 0 {
          var frames := (timeoutClk - host.clock) / perFrame;
          QuotientNotNegative(timeoutClk - host.clock, perFrame);
          f := if frames > 65535 then 65535 else frames;
        }
      }
    }

    /** km_core_binmon_get: 0 and the 24-byte response, or -1 if there is no room. */
    method BinmonGet(out: array?<Byte>, outLength: nat) returns (status: int, newLength: nat)
      requires Valid() && (out != null ==> outLength <= out.Length)
      modifies out
      ensures out == null || outLength < RESPONSE_SIZE ==>
        status == -1 && newLength == outLength && (out != null ==> out[..] == old(out[..]))
      ensures out != null && outLength >= RESPONSE_SIZE ==>
        && status == 0 && newLength == RESPONSE_SIZE
        && out[..RESPONSE_SIZE] == Response(View()) && out[RESPONSE_SIZE..] == old(out[RESPONSE_SIZE..])
    {
      if out == null || outLength < RESPONSE_SIZE {
        return -1, outLength;
      }
      PutMatrix(out);
      PutHold(out);
      var f := LeftFrames();
      PutNumber(out, 22, f, 2);
      return 0, RESPONSE_SIZE;
    }
  }
}
