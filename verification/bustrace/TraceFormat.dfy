/** The trace file: header, fixed-width records, trailer; the documented reader;
    and what it recovers from any list of accesses. */
module TraceFormat {
  import opened Common
  import opened Crc32

  const HEADER_SIZE := 16
  const REC_SIZE := 10
  const TRAILER_SIZE := 16
  const MAGIC: seq<bv8> := [0x52, 0x42, 0x54, 0x31]
  const END_MAGIC: seq<bv8> := [0x52, 0x42, 0x54, 0x65]
  const VERSION: bv16 := 1
  const FLAG_HAS_PC: bv8 := 1
  const MAX_DELTA: int := 0xffff_ffff

  /** One memory access; `cycle` is the emulator's absolute clock. */
  datatype Access = Access(cycle: nat, addr: bv16, val: bv8, rwFlags: bv8, pc: bv16)

  // ---- Little-endian fields ---------------------------------------------------

  function PutU16(x: bv16): (bytes: seq<bv8>)
    ensures |bytes| == 2
  {
    [(x & 0xff) as bv8, ((x >> 8) & 0xff) as bv8]
  }

  function PutU64(x: bv64): (bytes: seq<bv8>)
    ensures |bytes| == 8
  {
    [(x & 0xff) as bv8, ((x >> 8) & 0xff) as bv8, ((x >> 16) & 0xff) as bv8, ((x >> 24) & 0xff) as bv8,
     ((x >> 32) & 0xff) as bv8, ((x >> 40) & 0xff) as bv8, ((x >> 48) & 0xff) as bv8, ((x >> 56) & 0xff) as bv8]
  }

  function GetU16(b: seq<bv8>): bv16
    requires |b| == 2
  {
    (b[0] as bv16) | ((b[1] as bv16) << 8)
  }

  function GetU64(b: seq<bv8>): bv64
    requires |b| == 8
  {
    (b[0] as bv64) | ((b[1] as bv64) << 8) | ((b[2] as bv64) << 16) | ((b[3] as bv64) << 24)
    | ((b[4] as bv64) << 32) | ((b[5] as bv64) << 40) | ((b[6] as bv64) << 48) | ((b[7] as bv64) << 56)
  }

  /** The number a little-endian field stands for. */
  function Value(b: seq<bv8>): nat {
    if b == [] then 0 else (b[0] as int) + 0x100 * Value(b[1..])
  }

  function GetU32(b: seq<bv8>): bv32
    requires |b| == 4
  {
    (b[0] as bv32) | ((b[1] as bv32) << 8) | ((b[2] as bv32) << 16) | ((b[3] as bv32) << 24)
  }

  /** A counter held in a uint64_t. */
  function Word64(n: nat): bv64 {
    (n % TWO64) as bv64
  }

  lemma U16RoundTrip(x: bv16, b: seq<bv8>)
    requires |b| == 2
    ensures GetU16(PutU16(x)) == x && PutU16(GetU16(b)) == b
  {
    U16Bits(x, b[0], b[1]);
  }

  lemma U16Bits(x: bv16, b0: bv8, b1: bv8)
    ensures (((x & 0xff) as bv8) as bv16) | ((((x >> 8) & 0xff) as bv8) as bv16 << 8) == x
    ensures var y := (b0 as bv16) | ((b1 as bv16) << 8); (y & 0xff) as bv8 == b0 && ((y >> 8) & 0xff) as bv8 == b1
  {
  }

  lemma U64RoundTrip(x: bv64)
    ensures GetU64(PutU64(x)) == x
  {
  }

  lemma U64RoundTripBytes(b: seq<bv8>)
    requires |b| == 8
    ensures PutU64(GetU64(b)) == b
  {
  }

  lemma U32RoundTrip(x: bv32)
    ensures GetU32(PutU32(x)) == x
  {
  }

  lemma U32RoundTripBytes(b: seq<bv8>)
    requires |b| == 4
    ensures PutU32(GetU32(b)) == b
  {
  }

  lemma JoinValue(a: bv8, b: bv8, c: bv8, d: bv8)
    ensures ((a as bv32) | ((b as bv32) << 8) | ((c as bv32) << 16) | ((d as bv32) << 24)) as int
      == a as int + 0x100 * (b as int) + 0x1_0000 * (c as int) + 0x100_0000 * (d as int)
  {
  }

  lemma ValueStep(b: seq<bv8>, low: bv8, rest: seq<bv8>)
    requires b == [low] + rest
    ensures Value(b) == low as int + 0x100 * Value(rest)
  {
    assert b[1..] == rest;
  }

  lemma FourByteValue(b: seq<bv8>)
    requires |b| == 4
    ensures Value(b) == b[0] as int + 0x100 * (b[1] as int) + 0x1_0000 * (b[2] as int) + 0x100_0000 * (b[3] as int)
  {
    ValueStep(b, b[0], b[1..]);
    ValueStep(b[1..], b[1], b[2..]);
    ValueStep(b[2..], b[2], b[3..]);
    ValueStep(b[3..], b[3], []);
  }

  /** The word a four-byte field holds has the field's value. */
  lemma FieldValue(b: seq<bv8>)
    requires |b| == 4
    ensures GetU32(b) as int == Value(b) <= MAX_DELTA
  {
    JoinValue(b[0], b[1], b[2], b[3]);
    FourByteValue(b);
  }

  lemma CastOfValue(w: bv32, n: int)
    requires w as int == n
    ensures n as bv32 == w
  {
  }

  lemma ByteWith(n: Byte) returns (b: bv8)
    ensures b as int == n
  {
    b := n as bv8;
    ByteValue(n);
  }

  lemma {:induction false} FieldWith(n: nat, k: nat) returns (b: seq<bv8>)
    requires n < Power(0x100, k)
    ensures |b| == k && Value(b) == n
  {
    if k == 0 {
      b := [];
    } else {
      var low := ByteWith(n % 0x100);
      var rest := FieldWith(n / 0x100, k - 1);
      b := [low] + rest;
      assert b[1..] == rest;
    }
  }

  lemma FourDigits(k: nat)
    requires k == 4
    ensures Power(0x100, k) == MAX_DELTA + 1
  {
  }

  /** The cast to uint32_t keeps the value of a number that fits. */
  lemma CastValue(n: nat)
    requires n <= MAX_DELTA
    ensures (n as bv32) as int == n
  {
    FourDigits(4);
    var b := FieldWith(n, 4);
    FieldValue(b);
    CastOfValue(GetU32(b), n);
  }

  lemma JoinHalves(lo: bv32, hi: bv32)
    ensures ((lo as bv64) | ((hi as bv64) << 32)) as int == lo as int + 0x1_0000_0000 * (hi as int)
  {
  }

  lemma CastOfValue64(w: bv64, n: int)
    requires w as int == n
    ensures n as bv64 == w
  {
  }

  lemma WordWith(n: nat) returns (w: bv32)
    requires n <= MAX_DELTA
    ensures w as int == n
  {
    w := n as bv32;
    CastValue(n);
  }

  /** The uint64_t holding a counter below 2^64 has the counter's value. */
  lemma Word64Value(n: nat)
    requires n < TWO64
    ensures Word64(n) as int == n
  {
    var lo := WordWith(n % TWO32);
    var hi := WordWith(n / TWO32);
    JoinHalves(lo, hi);
    CastOfValue64((lo as bv64) | ((hi as bv64) << 32), n);
  }

  /** The stored delta reads back as the number it was, and only its own bytes do. */
  lemma DeltaRoundTrip(n: nat)
    requires n <= MAX_DELTA
    ensures Value(PutU32(n as bv32)) == n
  {
    U32RoundTrip(n as bv32);
    CastValue(n);
    FieldValue(PutU32(n as bv32));
  }

  lemma DeltaRoundTripBytes(b: seq<bv8>)
    requires |b| == 4
    ensures Value(b) <= MAX_DELTA && PutU32(Value(b) as bv32) == b
  {
    FieldValue(b);
    CastOfValue(GetU32(b), Value(b));
    U32RoundTripBytes(b);
  }

  // ---- The file ---------------------------------------------------------------

  /** Cycles since the previous access: never negative, and saturated at 2^32-1. */
  function Delta(prev: nat, cycle: nat): (d: nat)
    ensures d <= MAX_DELTA
  {
    if cycle < prev then 0 else if cycle - prev > MAX_DELTA then MAX_DELTA else cycle - prev
  }

  function Record(delta: nat, a: Access): (bytes: seq<bv8>)
    requires delta <= MAX_DELTA
    ensures |bytes| == REC_SIZE
  {
    PutU32(delta as bv32) + PutU16(a.addr) + [a.val, a.rwFlags] + PutU16(a.pc)
  }

  function Body(prev: nat, accesses: seq<Access>): (bytes: seq<bv8>)
    ensures |bytes| == REC_SIZE * |accesses|
    decreases |accesses|
  {
    if accesses == [] then []
    else Record(Delta(prev, accesses[0].cycle), accesses[0]) + Body(accesses[0].cycle, accesses[1..])
  }

  function Header(cyclesPerSec: bv64): (bytes: seq<bv8>)
    ensures |bytes| == HEADER_SIZE
  {
    MAGIC + PutU16(VERSION) + [REC_SIZE as bv8, FLAG_HAS_PC] + PutU64(cyclesPerSec)
  }

  function Trailer(recCount: nat, crc: bv32): (bytes: seq<bv8>)
    ensures |bytes| == TRAILER_SIZE
  {
    END_MAGIC + PutU64(Word64(recCount)) + PutU32(crc)
  }

  function WriteTrace(cyclesPerSec: bv64, accesses: seq<Access>): seq<bv8> {
    Header(cyclesPerSec) + Body(0, accesses) + Trailer(|accesses|, Crc(0, Body(0, accesses)))
  }

  // ---- The documented reader ----------------------------------------------------

  datatype Trace = Trace(cyclesPerSec: bv64, records: seq<Access>)

  function ReadRecord(clock: nat, rec: seq<bv8>): Access
    requires |rec| == REC_SIZE
  {
    Access(clock + Value(rec[..4]), GetU16(rec[4..6]), rec[6], rec[7], GetU16(rec[8..]))
  }

  /** Stride the records, summing the deltas into absolute cycles. */
  function ReadBody(clock: nat, bytes: seq<bv8>): (records: seq<Access>)
    requires |bytes| % REC_SIZE == 0
    ensures |records| == |bytes| / REC_SIZE
    decreases |bytes|
  {
    if bytes == [] then []
    else
      var first := ReadRecord(clock, bytes[..REC_SIZE]);
      [first] + ReadBody(first.cycle, bytes[REC_SIZE..])
  }

  /** None unless the file is a complete trace: the header and both magic numbers
      are right, and the trailer's record count and checksum are those of the
      records present. */
  function ReadTrace(file: seq<bv8>): Option<Trace> {
    if |file| < HEADER_SIZE + TRAILER_SIZE || (|file| - HEADER_SIZE - TRAILER_SIZE) % REC_SIZE != 0 then None
    else
      var header, body, trailer := file[..HEADER_SIZE], file[HEADER_SIZE..|file| - TRAILER_SIZE], file[|file| - TRAILER_SIZE..];
      if header[..8] != MAGIC + PutU16(VERSION) + [REC_SIZE as bv8, FLAG_HAS_PC] then None
      else if trailer[..4] != END_MAGIC then None
      else if GetU64(trailer[4..12]) != Word64(|body| / REC_SIZE) || GetU32(trailer[12..]) != Crc(0, body) then None
      else Some(Trace(GetU64(header[8..]), ReadBody(0, body)))
  }

  /** The trailer's fields have the values checked exactly if its bytes are those
      written for them. */
  lemma TrailerFields(trailer: seq<bv8>, recCount: nat, crc: bv32)
    requires |trailer| == TRAILER_SIZE
    ensures trailer == Trailer(recCount, crc) <==>
      trailer[..4] == END_MAGIC && GetU64(trailer[4..12]) == Word64(recCount) && GetU32(trailer[12..]) == crc
  {
    U64RoundTrip(Word64(recCount));
    U64RoundTripBytes(trailer[4..12]);
    U32RoundTrip(crc);
    U32RoundTripBytes(trailer[12..]);
    assert trailer == trailer[..4] + trailer[4..12] + trailer[12..];
    var t := Trailer(recCount, crc);
    assert t[..4] == END_MAGIC && t[4..12] == PutU64(Word64(recCount)) && t[12..] == PutU32(crc);
  }

  // ---- What the reader recovers ---------------------------------------------------

  /** The accesses with the clock the reader reconstructs. */
  function Reconstruct(prev: nat, clock: nat, accesses: seq<Access>): (r: seq<Access>)
    ensures |r| == |accesses|
    decreases |accesses|
  {
    if accesses == [] then []
    else
      var a := accesses[0];
      var now := clock + Delta(prev, a.cycle);
      [a.(cycle := now)] + Reconstruct(a.cycle, now, accesses[1..])
  }

  lemma RecordRoundTrip(clock: nat, delta: nat, a: Access)
    requires delta <= MAX_DELTA
    ensures ReadRecord(clock, Record(delta, a)) == a.(cycle := clock + delta)
  {
    var rec := Record(delta, a);
    assert rec[..4] == PutU32(delta as bv32) && rec[4..6] == PutU16(a.addr) && rec[8..] == PutU16(a.pc);
    DeltaRoundTrip(delta);
    U16RoundTrip(a.addr, rec[4..6]);
    U16RoundTrip(a.pc, rec[8..]);
  }

  lemma ReconstructStep(prev: nat, clock: nat, accesses: seq<Access>)
    requires accesses != []
    ensures var a, now := accesses[0], clock + Delta(prev, accesses[0].cycle);
      Reconstruct(prev, clock, accesses) == [a.(cycle := now)] + Reconstruct(a.cycle, now, accesses[1..])
  {
  }

  lemma {:induction false} BodyRoundTrip(prev: nat, clock: nat, accesses: seq<Access>, bytes: seq<bv8>)
    requires bytes == Body(prev, accesses)
    ensures ReadBody(clock, bytes) == Reconstruct(prev, clock, accesses)
    decreases |accesses|
  {
    if accesses != [] {
      var a, delta := accesses[0], Delta(prev, accesses[0].cycle);
      var rest := Body(a.cycle, accesses[1..]);
      assert bytes == Record(delta, a) + rest;
      ReadBack(clock, delta, a, rest);
      BodyRoundTrip(a.cycle, clock + delta, accesses[1..], rest);
      ReconstructStep(prev, clock, accesses);
    }
  }

  lemma ReadBack(clock: nat, delta: nat, a: Access, rest: seq<bv8>)
    requires delta <= MAX_DELTA && |rest| % REC_SIZE == 0
    ensures ReadBody(clock, Record(delta, a) + rest) == [a.(cycle := clock + delta)] + ReadBody(clock + delta, rest)
  {
    RecordRoundTrip(clock, delta, a);
    ReadStep(clock, Record(delta, a), rest);
  }

  lemma ReadStep(clock: nat, rec: seq<bv8>, rest: seq<bv8>)
    requires |rec| == REC_SIZE && |rest| % REC_SIZE == 0
    ensures |rec + rest| % REC_SIZE == 0
    ensures ReadBody(clock, rec + rest) == [ReadRecord(clock, rec)] + ReadBody(ReadRecord(clock, rec).cycle, rest)
  {
    assert (rec + rest)[..REC_SIZE] == rec && (rec + rest)[REC_SIZE..] == rest;
  }

  /** Whatever is recorded, the reader accepts the file and recovers every field,
      the clocks as reconstructed from the deltas. */
  lemma ReadBackReconstructs(cyclesPerSec: bv64, accesses: seq<Access>)
    ensures ReadTrace(WriteTrace(cyclesPerSec, accesses)) == Some(Trace(cyclesPerSec, Reconstruct(0, 0, accesses)))
  {
    var file, body := WriteTrace(cyclesPerSec, accesses), Body(0, accesses);
    var header, trailer := Header(cyclesPerSec), Trailer(|accesses|, Crc(0, body));
    BodyRoundTrip(0, 0, accesses, body);
    U64RoundTrip(cyclesPerSec);
    assert header[8..] == PutU64(cyclesPerSec);
    assert header[..8] == MAGIC + PutU16(VERSION) + [REC_SIZE as bv8, FLAG_HAS_PC];
    ReadSections(header, body, trailer);
  }

  lemma ReadSections(header: seq<bv8>, body: seq<bv8>, trailer: seq<bv8>)
    requires |header| == HEADER_SIZE && |trailer| == TRAILER_SIZE
    requires header[..8] == MAGIC + PutU16(VERSION) + [REC_SIZE as bv8, FLAG_HAS_PC]
    requires |body| % REC_SIZE == 0 && trailer == Trailer(|body| / REC_SIZE, Crc(0, body))
    ensures ReadTrace(header + body + trailer) == Some(Trace(GetU64(header[8..]), ReadBody(0, body)))
  {
    TrailerFields(trailer, |body| / REC_SIZE, Crc(0, body));
    Sections(header, body, trailer);
  }

  lemma Sections(header: seq<bv8>, body: seq<bv8>, trailer: seq<bv8>)
    requires |header| == HEADER_SIZE && |trailer| == TRAILER_SIZE
    ensures var file := header + body + trailer;
      file[..HEADER_SIZE] == header && file[HEADER_SIZE..|file| - TRAILER_SIZE] == body && file[|file| - TRAILER_SIZE..] == trailer
  {
  }

  /** Each gap, the first measured from 0, goes forward by less than 2^32. */
  predicate GapsFit(prev: nat, accesses: seq<Access>)
    decreases |accesses|
  {
    accesses == [] ||
    (prev <= accesses[0].cycle <= prev + MAX_DELTA && GapsFit(accesses[0].cycle, accesses[1..]))
  }

  lemma {:induction false} ReconstructExact(prev: nat, accesses: seq<Access>)
    ensures Reconstruct(prev, prev, accesses) == accesses <==> GapsFit(prev, accesses)
    decreases |accesses|
  {
    if accesses != [] {
      var a := accesses[0];
      ReconstructExact(a.cycle, accesses[1..]);
      assert accesses == [a] + accesses[1..];
      if Reconstruct(prev, prev, accesses) == accesses {
        assert Reconstruct(prev, prev, accesses)[0] == a;
        assert Reconstruct(prev, prev, accesses)[1..] == accesses[1..];
      }
    }
  }

  /** The trace reads back as exactly the accesses recorded if and only if every
      gap goes forward by less than 2^32 cycles. */
  lemma TraceRoundTrip(cyclesPerSec: bv64, accesses: seq<Access>)
    ensures ReadTrace(WriteTrace(cyclesPerSec, accesses)) == Some(Trace(cyclesPerSec, accesses)) <==> GapsFit(0, accesses)
  {
    ReadBackReconstructs(cyclesPerSec, accesses);
    ReconstructExact(0, accesses);
  }

  /** A single access 2^32 cycles after power-up does not read back. */
  lemma SaturatedGapLost(cyclesPerSec: bv64)
    ensures var accesses := [Access(0x1_0000_0000, 0, 0, 0, 0)];
      ReadTrace(WriteTrace(cyclesPerSec, accesses)) != Some(Trace(cyclesPerSec, accesses))
  {
    TraceRoundTrip(cyclesPerSec, [Access(0x1_0000_0000, 0, 0, 0, 0)]);
  }

  /** Nor do two accesses of which the second is a cycle earlier. */
  lemma BackwardClockLost(cyclesPerSec: bv64)
    ensures var accesses := [Access(1, 0, 0, 0, 0), Access(0, 0, 0, 0, 0)];
      ReadTrace(WriteTrace(cyclesPerSec, accesses)) != Some(Trace(cyclesPerSec, accesses))
  {
    var accesses := [Access(1, 0, 0, 0, 0), Access(0, 0, 0, 0, 0)];
    TraceRoundTrip(cyclesPerSec, accesses);
    assert !GapsFit(1, accesses[1..]);
  }

  // ---- Only written files are accepted ----------------------------------------------

  lemma RecordOfFields(delta: nat, a: Access, rec: seq<bv8>)
    requires |rec| == REC_SIZE && delta <= MAX_DELTA
    requires PutU32(delta as bv32) == rec[..4] && PutU16(a.addr) == rec[4..6] && PutU16(a.pc) == rec[8..]
    requires a.val == rec[6] && a.rwFlags == rec[7]
    ensures Record(delta, a) == rec
  {
    assert rec == rec[..4] + rec[4..6] + [rec[6], rec[7]] + rec[8..];
  }

  lemma RecordBytes(clock: nat, rec: seq<bv8>)
    requires |rec| == REC_SIZE
    ensures var a := ReadRecord(clock, rec);
      clock <= a.cycle <= clock + MAX_DELTA && Record(Delta(clock, a.cycle), a) == rec
  {
    var a := ReadRecord(clock, rec);
    DeltaRoundTripBytes(rec[..4]);
    U16RoundTrip(a.addr, rec[4..6]);
    U16RoundTrip(a.pc, rec[8..]);
    RecordOfFields(Value(rec[..4]), a, rec);
  }

  lemma {:induction false} BodyBytes(clock: nat, bytes: seq<bv8>)
    requires |bytes| % REC_SIZE == 0
    ensures GapsFit(clock, ReadBody(clock, bytes)) && Body(clock, ReadBody(clock, bytes)) == bytes
    decreases |bytes|
  {
    if bytes != [] {
      var rec, rest := bytes[..REC_SIZE], bytes[REC_SIZE..];
      RecordBytes(clock, rec);
      var a := ReadRecord(clock, rec);
      BodyBytes(a.cycle, rest);
      assert bytes == rec + rest;
      var records := ReadBody(clock, bytes);
      assert records[0] == a && records[1..] == ReadBody(a.cycle, rest);
    }
  }

  /** The reader accepts a file exactly if it is what the writer makes of the
      accesses it reads, whose gaps then all fit. */
  lemma AcceptedIffWritten(file: seq<bv8>, t: Trace)
    ensures ReadTrace(file) == Some(t) <==> GapsFit(0, t.records) && file == WriteTrace(t.cyclesPerSec, t.records)
  {
    if ReadTrace(file) == Some(t) {
      var header, body, trailer := file[..HEADER_SIZE], file[HEADER_SIZE..|file| - TRAILER_SIZE], file[|file| - TRAILER_SIZE..];
      BodyBytes(0, body);
      TrailerFields(trailer, |body| / REC_SIZE, Crc(0, body));
      U64RoundTripBytes(header[8..]);
      assert header == header[..8] + header[8..];
      assert header == Header(t.cyclesPerSec);
      assert file == header + body + trailer;
    }
    if GapsFit(0, t.records) && file == WriteTrace(t.cyclesPerSec, t.records) {
      TraceRoundTrip(t.cyclesPerSec, t.records);
    }
  }

  lemma PutU32Injective(x: bv32, y: bv32)
    requires PutU32(x) == PutU32(y)
    ensures x == y
  {
    U32RoundTrip(x);
    U32RoundTrip(y);
  }

  /** A file whose records were altered inside any four consecutive bytes is
      rejected. */
  lemma AlteredRecordsRejected(cyclesPerSec: bv64, accesses: seq<Access>, body: seq<bv8>, before: seq<bv8>, u: seq<bv8>, v: seq<bv8>, after: seq<bv8>)
    requires body == Body(0, accesses)
    requires body == before + u + after
    requires |u| == |v| <= 4 && u != v
    ensures ReadTrace(Header(cyclesPerSec) + (before + v + after) + Trailer(|accesses|, Crc(0, body))) == None
  {
    FourByteChangeDetected(0, before, u, v, after);
    StaleCrcRejected(Header(cyclesPerSec), body, before + v + after, |accesses|);
  }

  lemma StaleCrcRejected(header: seq<bv8>, good: seq<bv8>, bad: seq<bv8>, recCount: nat)
    requires |header| == HEADER_SIZE && |good| == |bad| == REC_SIZE * recCount
    requires Crc(0, good) != Crc(0, bad)
    ensures ReadTrace(header + bad + Trailer(recCount, Crc(0, good))) == None
  {
    TrailersDiffer(recCount, Crc(0, good), Crc(0, bad));
    WrongTrailerRejected(header, bad, Trailer(recCount, Crc(0, good)));
  }

  lemma WrongTrailerRejected(header: seq<bv8>, body: seq<bv8>, trailer: seq<bv8>)
    requires |header| == HEADER_SIZE && |trailer| == TRAILER_SIZE
    requires trailer != Trailer(|body| / REC_SIZE, Crc(0, body))
    ensures ReadTrace(header + body + trailer) == None
  {
    TrailerFields(trailer, |body| / REC_SIZE, Crc(0, body));
    Sections(header, body, trailer);
  }

  /** The trailer's count detects missing and surplus records: a file with any
      other number of records than its trailer was written for is rejected,
      whatever its checksum. */
  lemma LostRecordsRejected(header: seq<bv8>, body: seq<bv8>, recCount: nat, crc: bv32)
    requires |header| == HEADER_SIZE && |body| % REC_SIZE == 0
    requires recCount < TWO64 && |body| / REC_SIZE < TWO64 && |body| / REC_SIZE != recCount
    ensures ReadTrace(header + body + Trailer(recCount, crc)) == None
  {
    CountsDiffer(recCount, crc, |body| / REC_SIZE, Crc(0, body));
    WrongTrailerRejected(header, body, Trailer(recCount, crc));
  }

  lemma CountsDiffer(m: nat, x: bv32, n: nat, y: bv32)
    requires m < TWO64 && n < TWO64 && m != n
    ensures Trailer(m, x) != Trailer(n, y)
  {
    StoredCount(m, x);
    StoredCount(n, y);
  }

  /** The count stored in the trailer of a recording, read as a number, is the number
      of its accesses. */
  lemma StoredCount(recCount: nat, crc: bv32)
    requires recCount < TWO64
    ensures GetU64(Trailer(recCount, crc)[4..12]) as int == recCount
  {
    Word64Value(recCount);
    TrailerFields(Trailer(recCount, crc), recCount, crc);
  }

  lemma TrailersDiffer(recCount: nat, x: bv32, y: bv32)
    requires x != y
    ensures Trailer(recCount, x) != Trailer(recCount, y)
  {
    var s, t := Trailer(recCount, x), Trailer(recCount, y);
    assert s[12..] == PutU32(x) && t[12..] == PutU32(y);
    if PutU32(x) == PutU32(y) {
      PutU32Injective(x, y);
    }
  }

  // ---- Drift --------------------------------------------------------------------------

  /** Total backward movement of the clock over a list of accesses. */
  function Backward(prev: nat, accesses: seq<Access>): nat
    decreases |accesses|
  {
    if accesses == [] then 0
    else
      var c := accesses[0].cycle;
      (if c < prev then prev - c else 0) + Backward(c, accesses[1..])
  }

  /** Total forward movement beyond 2^32-1 cycles in a single gap. */
  function Excess(prev: nat, accesses: seq<Access>): nat
    decreases |accesses|
  {
    if accesses == [] then 0
    else
      var c := accesses[0].cycle;
      (if c > prev + MAX_DELTA then c - prev - MAX_DELTA else 0) + Excess(c, accesses[1..])
  }

  /** For arbitrary cycles, the reconstructed clock never goes back, and at every
      record it is the true cycle plus all backward movement so far minus all
      saturated excess so far. */
  lemma {:induction false} ClockDrift(prev: nat, clock: nat, accesses: seq<Access>, k: nat)
    requires k < |accesses|
    ensures var r := Reconstruct(prev, clock, accesses);
      && r[k].cycle - clock == accesses[k].cycle - prev + Backward(prev, accesses[..k + 1]) - Excess(prev, accesses[..k + 1])
      && (if k == 0 then clock else r[k - 1].cycle) <= r[k].cycle
    decreases k
  {
    var c := accesses[0].cycle;
    var now := clock + Delta(prev, c);
    assert accesses[..k + 1][1..] == accesses[1..][..k];
    if k == 0 {
      assert accesses[..1][1..] == [];
    } else {
      ClockDrift(c, now, accesses[1..], k - 1);
    }
  }
}
