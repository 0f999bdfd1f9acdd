/** Keyboard-matrix injection as a state machine: the injector, the host it drives
    (matrix bits, a clock, one alarm), and the operations of both. */
module KmModel {
  import opened Common
  import opened Text
  import opened KeyList

  const DEFAULT_TIMEOUT_FRAMES := 60
  const PAL_CYCLES_PER_FRAME := 19656
  const RESPONSE_SIZE := 24

  datatype Mode = Idle | TapObserved | TapFixed | PressSticky

  datatype Reason = NoReason | Observed | Timeout | Manual

  /** What the last release recorded. */
  datatype Report = Report(keys: seq<Key>, total: nat, sampling: nat, reason: Reason, mode: Mode, framesHeld: nat)

  datatype Injector = Injector(active: bool, mode: Mode, keys: seq<Key>, total: nat, sampling: nat,
                               timeoutClk: nat, lastReason: Reason, pressClk: nat, last: Option<Report>)

  /** `bits` are the set matrix positions, custom keys included; `cyclesPerFrame`
      is not positive when the machine does not know it. */
  datatype Host = Host(bits: set<(int, int)>, clock: nat, alarm: Option<nat>, cyclesPerFrame: int)

  datatype World = World(km: Injector, host: Host)

  const IDLE: Injector := Injector(false, Idle, [], 0, 0, 0, NoReason, 0, None)

  function Places(keys: seq<Key>): set<(int, int)> {
    set k | k in keys :: (k.row, k.col)
  }

  // ---- Releasing --------------------------------------------------------------

  function Cap16(n: nat): nat {
    if n > 65535 then 65535 else n
  }

  /** Whole frames since the keys went down. */
  function FramesHeld(w: World): nat {
    if w.host.cyclesPerFrame > 0 && w.host.clock >= w.km.pressClk
    then Cap16((w.host.clock - w.km.pressClk) / w.host.cyclesPerFrame)
    else 0
  }

  function ReportNow(w: World, reason: Reason): Report {
    Report(w.km.keys, w.km.total, w.km.sampling,
           if w.km.lastReason != NoReason then w.km.lastReason else reason, w.km.mode, FramesHeld(w))
  }

  function ReleaseNow(w: World, reason: Reason): World {
    if !w.km.active then w
    else World(
      w.km.(active := false, mode := Idle, keys := [], total := 0, sampling := 0, lastReason := NoReason,
            last := Some(ReportNow(w, reason))),
      w.host.(bits := w.host.bits - Places(w.km.keys), alarm := None))
  }

  function OnAlarm(w: World): World {
    ReleaseNow(w, if w.km.lastReason != NoReason then w.km.lastReason else Timeout)
  }

  // ---- Activating -------------------------------------------------------------

  /** A request to hold keys; `frames` matters for taps only. */
  datatype Activation = Activation(keys: seq<Key>, mode: Mode, frames: nat)

  function CpfOrPal(h: Host): (c: nat)
    ensures c > 0
  {
    if h.cyclesPerFrame <= 0 then PAL_CYCLES_PER_FRAME else h.cyclesPerFrame
  }

  /** Supersede whatever is held, press the keys, and for a tap arm the alarm. */
  function Activate(w: World, a: Activation): World {
    var w1 := ReleaseNow(w, Manual);
    var timeout := w1.host.clock + a.frames * CpfOrPal(w1.host);
    var tap := a.mode != PressSticky;
    World(
      w1.km.(active := true, mode := a.mode, keys := a.keys, total := 0, sampling := 0, lastReason := NoReason,
             pressClk := w1.host.clock, timeoutClk := if tap then timeout else w1.km.timeoutClk),
      w1.host.(bits := w1.host.bits + Places(a.keys), alarm := if tap then Some(timeout) else w1.host.alarm))
  }

  /** The key list a text verb accepts: not empty, not too long for the buffer. */
  function AcceptedList(args: Option<CString>): Option<ParseResult> {
    if args.None? || args.value == "" || |args.value| >= BUFFER_SIZE then None
    else
      var r := ParseArgs(args.value);
      if r.Parsed? && r.keys != [] then Some(r) else None
  }

  function TapRequest(args: Option<CString>): Option<Activation> {
    match AcceptedList(args)
    case None => None
    case Some(r) =>
      if r.Parsed? && r.forFrames > 0 then Some(Activation(r.keys, TapFixed, r.forFrames))
      else if r.Parsed? then Some(Activation(r.keys, TapObserved, DEFAULT_TIMEOUT_FRAMES))
      else None
  }

  function PressRequest(args: Option<CString>): Option<Activation> {
    match AcceptedList(args)
    case None => None
    case Some(r) => if r.Parsed? then Some(Activation(r.keys, PressSticky, 0)) else None
  }

  /** int8_t */
  function Signed(b: Byte): int {
    if b < 0x80 then b else b - 0x100
  }

  function BinKeys(body: seq<Byte>): (keys: seq<Key>)
    ensures |keys| == |body| / 2
    decreases |body|
  {
    if |body| < 2 then []
    else [BinKey(body[0], body[1])] + BinKeys(body[2..])
  }

  function BinKey(row: Byte, col: Byte): Key {
    KeyAt(Signed(row), Signed(col))
  }

  /** mode, frames (little-endian), count, then (row, col) pairs; bytes beyond the
      counted pairs are ignored. */
  function BinTapRequest(body: seq<Byte>): Option<Activation> {
    if |body| < 4 then None
    else
      var frames: nat, count: nat := (body[1] as int) + 0x100 * (body[2] as int), body[3];
      if |body| < 4 + 2 * count || count == 0 || count > MAX_KEYS then None
      else Some(Activation(BinKeys(body[4..4 + 2 * count]), if body[0] == 1 then TapFixed else TapObserved,
                           if frames > 0 then frames else DEFAULT_TIMEOUT_FRAMES))
  }

  // ---- Releasing by name --------------------------------------------------------

  function Surviving(keys: seq<Key>, dropped: set<(int, int)>): seq<Key> {
    if keys == [] then []
    else (if (keys[0].row, keys[0].col) in dropped then [] else [keys[0]]) + Surviving(keys[1..], dropped)
  }

  /** Clearing the matrix leaves the keys outside it alone. */
  function OffMatrix(bits: set<(int, int)>): set<(int, int)> {
    set p | p in bits && p.0 < 0
  }

  function ReleaseAll(w: World): World {
    var w1 := ReleaseNow(w, Manual);
    w1.(host := w1.host.(bits := OffMatrix(w1.host.bits)))
  }

  function ReleaseKeys(w: World, keys: seq<Key>): World {
    var cleared := w.host.(bits := w.host.bits - Places(keys));
    if !w.km.active then w.(host := cleared)
    else
      var left := Surviving(w.km.keys, Places(keys));
      var w1 := World(w.km.(keys := left), cleared);
      if left == [] then ReleaseNow(w1, Manual) else w1
  }

  function Release(w: World, args: Option<CString>): World {
    if args.None? || args.value == "" then ReleaseAll(w)
    else
      match AcceptedList(args)
      case None => w
      case Some(r) => if r.Parsed? then ReleaseKeys(w, r.keys) else w
  }

  // ---- Observing ------------------------------------------------------------------

  /** 1 << i */
  function Bit8(i: nat): bv8
    requires i < 8
  {
    if i == 0 then 1 else if i == 1 then 2 else if i == 2 then 4 else if i == 3 then 8
    else if i == 4 then 16 else if i == 5 then 32 else if i == 6 then 64 else 128
  }

  /** The scan drives line i low. */
  predicate Selected(mask: bv8, i: int) {
    0 <= i <= 7 && mask & Bit8(i) == 0
  }

  /** Some held matrix key lies on a selected row (column). */
  predicate RowSampled(keys: seq<Key>, mask: bv8) {
    exists i :: 0 <= i < |keys| && keys[i].kind == 0 && Selected(mask, keys[i].row)
  }

  predicate ColSampled(keys: seq<Key>, mask: bv8) {
    exists i :: 0 <= i < |keys| && keys[i].kind == 0 && Selected(mask, keys[i].col)
  }

  /** The counters are uint32_t. */
  function CountRead(w: World, sampled: bool): World {
    if !w.km.active then w
    else
      var km := w.km.(total := (w.km.total + 1) % TWO32);
      if !sampled then w.(km := km)
      else
        var km1 := km.(sampling := (km.sampling + 1) % TWO32);
        if km.mode == TapObserved && km.lastReason == NoReason
        then World(km1.(lastReason := Observed), w.host.(alarm := Some(w.host.clock + 1)))
        else w.(km := km1)
  }

  // ---- One step -------------------------------------------------------------------

  datatype Op =
    | Tap(args: Option<CString>)
    | Press(args: Option<CString>)
    | ReleaseOp(args: Option<CString>)
    | BinTap(body: seq<Byte>)
    | PaRead(mask: bv8)
    | PbRead(mask: bv8)
    | Tick(cycles: nat)                        // time passes
    | Fire                                     // a due alarm goes off
    | SetCyclesPerFrame(perFrame: int)          // the machine changes
    | RawBit(row: int, col: int, on: bool)     // poke and the binary SET bypass tracking

  function Request(op: Op): Option<Activation> {
    match op
    case Tap(args) => TapRequest(args)
    case Press(args) => PressRequest(args)
    case BinTap(body) => BinTapRequest(body)
    case _ => None
  }

  predicate Sampled(w: World, op: Op) {
    (op.PaRead? && RowSampled(w.km.keys, op.mask)) || (op.PbRead? && ColSampled(w.km.keys, op.mask))
  }

  predicate AlarmDue(w: World) {
    w.host.alarm.Some? && w.host.alarm.value <= w.host.clock
  }

  function Step(w: World, op: Op): World {
    match op
    case Tap(_) => if Request(op).Some? then Activate(w, Request(op).value) else w
    case Press(_) => if Request(op).Some? then Activate(w, Request(op).value) else w
    case BinTap(_) => if Request(op).Some? then Activate(w, Request(op).value) else w
    case ReleaseOp(args) => Release(w, args)
    case PaRead(_) => CountRead(w, Sampled(w, op))
    case PbRead(_) => CountRead(w, Sampled(w, op))
    case Tick(n) => w.(host := w.host.(clock := w.host.clock + n))
    case Fire => if AlarmDue(w) then OnAlarm(w) else w
    case SetCyclesPerFrame(n) => w.(host := w.host.(cyclesPerFrame := n))
    case RawBit(row, col, on) =>
      w.(host := w.host.(bits := if on then w.host.bits + {(row, col)} else w.host.bits - {(row, col)}))
  }

  function RunFrom(w: World, ops: seq<Op>): World {
    if ops == [] then w else Step(RunFrom(w, Init(ops)), Last(ops))
  }

  /** At power-up nothing is held, whatever the clock and the machine. */
  function PowerUp(clock: nat, cyclesPerFrame: int): World {
    World(IDLE, Host({}, clock, None, cyclesPerFrame))
  }

  // ---- The status response ----------------------------------------------------------

  /** Whole frames until the deadline, as the binary GET reports them. */
  function FramesLeft(w: World): nat {
    if w.km.active && w.km.timeoutClk > w.host.clock && w.host.cyclesPerFrame > 0
    then Cap16((w.km.timeoutClk - w.host.clock) / w.host.cyclesPerFrame)
    else 0
  }

  /** The k low base-256 digits of a counter, least significant first. */
  function LittleEndian(n: nat, k: nat): (b: seq<Byte>)
    ensures |b| == k
  {
    if k == 0 then [] else [n % 0x100] + LittleEndian(n / 0x100, k - 1)
  }

  /** The first n columns of a matrix row, column c as bit c. */
  function RowBits(bits: set<(int, int)>, row: int, n: nat): nat {
    if n == 0 then 0 else RowBits(bits, row, n - 1) + if (row, n - 1) in bits then Power(2, n - 1) else 0
  }

  lemma {:induction false} RowBitsBound(bits: set<(int, int)>, row: int, n: nat)
    ensures RowBits(bits, row, n) < Power(2, n)
  {
    if n > 0 { RowBitsBound(bits, row, n - 1); }
  }

  function RowByte(bits: set<(int, int)>, row: int): Byte {
    RowBitsBound(bits, row, 8);
    RowBits(bits, row, 8)
  }

  function MatrixRows(bits: set<(int, int)>, n: nat): (b: seq<Byte>)
    ensures |b| == n
  {
    if n == 0 then [] else MatrixRows(bits, n - 1) + [RowByte(bits, n - 1)]
  }

  /** RESTORE 1 and 2, CAPS LOCK and 40/80 COLUMN sit at these places outside the
      matrix. */
  function CustomByte(bits: set<(int, int)>): Byte {
    (if (-3, 0) in bits then 1 else 0) + (if (-3, 1) in bits then 2 else 0)
    + (if (-4, 1) in bits then 4 else 0) + (if (-4, 0) in bits then 8 else 0)
  }

  function ReasonCode(r: Reason): Byte {
    match r case NoReason => 0 case Observed => 1 case Timeout => 2 case Manual => 3
  }

  /** The part of the response about the current hold, or else the last one. */
  function HoldBytes(w: World): (b: seq<Byte>)
    requires |w.km.keys| <= MAX_KEYS && (w.km.last.Some? ==> |w.km.last.value.keys| <= MAX_KEYS)
    ensures |b| == 10
  {
    if w.km.active then
      LittleEndian(w.km.total, 4) + LittleEndian(w.km.sampling, 4) + [ReasonCode(w.km.lastReason), |w.km.keys|]
    else if w.km.last.Some? then
      var r := w.km.last.value;
      LittleEndian(r.total, 4) + LittleEndian(r.sampling, 4) + [ReasonCode(r.reason), |r.keys|]
    else LittleEndian(0, 4) + LittleEndian(0, 4) + [0, 0]
  }

  function Response(w: World): (b: seq<Byte>)
    requires |w.km.keys| <= MAX_KEYS && (w.km.last.Some? ==> |w.km.last.value.keys| <= MAX_KEYS)
    ensures |b| == RESPONSE_SIZE
  {
    MatrixRows(w.host.bits, 8) + [CustomByte(w.host.bits), 0, 0, 0] + HoldBytes(w) + LittleEndian(FramesLeft(w), 2)
  }
}
