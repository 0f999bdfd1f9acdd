/** The streaming writer: its state machine, and the in-place core that
    implements it. */
module TraceWriter {
  import opened Common
  import opened Crc32
  import opened TraceFormat

  /** revice_bustrace_t without its callback. */
  datatype Core = Core(lastCycle: nat, recCount: nat, crc: bv32, started: bool)

  const FRESH: Core := Core(0, 0, 0, true)

  function AfterAccess(c: Core, a: Access): Core {
    if !c.started then c
    else Core(a.cycle, c.recCount + 1, Crc(c.crc, Record(Delta(c.lastCycle, a.cycle), a)), true)
  }

  function AccessBytes(c: Core, a: Access): seq<bv8> {
    if !c.started then [] else Record(Delta(c.lastCycle, a.cycle), a)
  }

  function AfterEnd(c: Core): Core {
    c.(started := false)
  }

  function EndBytes(c: Core): seq<bv8> {
    if !c.started then [] else Trailer(c.recCount, c.crc)
  }

  // ---- What a recording holds -------------------------------------------------

  /** The core's state after these accesses to a fresh trace. */
  ghost predicate Records(c: Core, accesses: seq<Access>) {
    && c.started
    && c.lastCycle == LastCycle(accesses)
    && c.recCount == |accesses|
    && c.crc == Crc(0, Body(0, accesses))
  }

  function LastCycle(accesses: seq<Access>): nat {
    if accesses == [] then 0 else Last(accesses).cycle
  }

  lemma {:induction false} BodySnoc(prev: nat, accesses: seq<Access>, a: Access)
    ensures Body(prev, accesses + [a]) ==
      Body(prev, accesses) + Record(Delta(if accesses == [] then prev else Last(accesses).cycle, a.cycle), a)
    decreases |accesses|
  {
    var all := accesses + [a];
    if accesses == [] {
      assert all[1..] == [];
    } else {
      var c, rest := accesses[0].cycle, accesses[1..];
      assert all[1..] == rest + [a];
      BodySnoc(c, rest, a);
      Regroup(Record(Delta(prev, c), accesses[0]), Body(c, rest),
              Record(Delta(Last(accesses).cycle, a.cycle), a));
    }
  }

  /** Outside begin and end nothing is recorded and nothing written. */
  lemma OnlyWhileStarted(c: Core, a: Access)
    ensures !c.started ==> AfterAccess(c, a) == AfterEnd(c) == c && AccessBytes(c, a) == EndBytes(c) == []
    ensures !AfterEnd(c).started && (AfterAccess(c, a).started <==> c.started)
  {
  }

  lemma FreshRecords()
    ensures Records(FRESH, [])
  {
    assert Crc(0, []) == Complement(Complement(0)) == 0;
  }

  /** Each access extends the recording by itself, and the emitted bytes extend
      the body. */
  lemma AccessRecords(c: Core, accesses: seq<Access>, a: Access)
    requires Records(c, accesses)
    ensures Records(AfterAccess(c, a), accesses + [a])
    ensures Body(0, accesses + [a]) == Body(0, accesses) + AccessBytes(c, a)
  {
    BodySnoc(0, accesses, a);
    CrcComposes(0, Body(0, accesses), AccessBytes(c, a));
  }

  /** Ending a recording completes the file it started. */
  lemma EndCompletes(c: Core, accesses: seq<Access>, cyclesPerSec: bv64)
    requires Records(c, accesses)
    ensures Header(cyclesPerSec) + Body(0, accesses) + EndBytes(c) == WriteTrace(cyclesPerSec, accesses)
  {
  }

  // ---- The core in place -------------------------------------------------------

  /** An output file.  Appending to a closed one is what must never happen. */
  class ByteSink {
    var data: seq<bv8>
    var isOpen: bool

    constructor ()
      ensures data == [] && isOpen
    {
      data, isOpen := [], true;
    }

    method Append(buf: seq<bv8>)
      requires isOpen
      modifies `data
      ensures data == old(data) + buf
    {
      data := data + buf;
    }

    method Close()
      requires isOpen
      modifies `isOpen
      ensures !isOpen
    {
      isOpen := false;
    }
  }

  /** Overwrite part of a buffer. */
  function Spliced(buf: seq<bv8>, off: nat, field: seq<bv8>): (buf': seq<bv8>)
    requires off + |field| <= |buf|
    ensures |buf'| == |buf|
  {
    buf[..off] + field + buf[off + |field|..]
  }

  lemma SplicePrefix(buf: seq<bv8>, off: nat, field: seq<bv8>)
    requires off + |field| <= |buf|
    ensures Spliced(buf, off, field)[..off + |field|] == buf[..off] + field
  {
  }

  method StoreU16(p: array<bv8>, off: nat, v: bv16)
    requires off + 2 <= p.Length
    modifies p
    ensures p[..] == Spliced(old(p[..]), off, PutU16(v))
  {
    p[off] := (v & 0xff) as bv8;
    p[off + 1] := ((v >> 8) & 0xff) as bv8;
    assert p[..] == old(p[..off]) + PutU16(v) + old(p[off + 2..]);
  }

  method StoreU32(p: array<bv8>, off: nat, v: bv32)
    requires off + 4 <= p.Length
    modifies p
    ensures p[..] == Spliced(old(p[..]), off, PutU32(v))
  {
    p[off] := (v & 0xff) as bv8;
    p[off + 1] := ((v >> 8) & 0xff) as bv8;
    p[off + 2] := ((v >> 16) & 0xff) as bv8;
    p[off + 3] := ((v >> 24) & 0xff) as bv8;
    assert p[..] == old(p[..off]) + PutU32(v) + old(p[off + 4..]);
  }

  method StoreByte(p: array<bv8>, i: nat, b: bv8)
    requires i < p.Length
    modifies p
    ensures p[..i + 1] == old(p[..i]) + [b] && p[i + 1..] == old(p[i + 1..])
  {
    p[i] := b;
  }

  /** The byte loop of put_u64, with `v >> (8 * i)` kept in `rest`. */
  method StoreU64(p: array<bv8>, off: nat, v: bv64)
    requires off + 8 <= p.Length
    modifies p
    ensures p[..] == Spliced(old(p[..]), off, PutU64(v))
  {
    var rest, i := v, off;
    ghost var todo, tail := PutU64(v), p[off + 8..];
    assert PutU64(v)[..8] == PutU64(v);
    while i < off + 8
      invariant off <= i <= off + 8 && |todo| == off + 8 - i
      invariant p[..i] + todo == old(p[..off]) + PutU64(v)
      invariant p[off + 8..] == tail
      invariant todo == PutU64(rest)[..|todo|]
    {
      NextByte(rest, |todo|);
      assert p[off + 8..] == p[i + 1..][off + 7 - i..];
      StoreByte(p, i, (rest & 0xff) as bv8);
      assert p[off + 8..] == p[i + 1..][off + 7 - i..];
      rest, i := rest >> 8, i + 1;
      todo := todo[1..];
    }
    assert p[..] == p[..off + 8] + p[off + 8..];
  }

  lemma NextByte(v: bv64, n: nat)
    requires 0 < n <= 8
    ensures PutU64(v)[..n] == [(v & 0xff) as bv8] + PutU64(v >> 8)[..n - 1]
  {
    ShiftedBytes(v);
    assert PutU64(v)[..n] == [PutU64(v)[0]] + PutU64(v)[1..][..n - 1];
    assert PutU64(v >> 8)[..n - 1] == PutU64(v >> 8)[..7][..n - 1];
  }

  lemma ShiftedBytes(v: bv64)
    ensures PutU64(v >> 8)[..7] == PutU64(v)[1..]
  {
  }

  /** revice_bustrace_t */
  class BusTrace {
    var emit: ByteSink?
    var lastCycle: nat
    var recCount: nat
    var crc: bv32
    var started: bool

    constructor ()
      ensures View() == Core(0, 0, 0, false) && emit == null
    {
      emit, lastCycle, recCount, crc, started := null, 0, 0, 0, false;
    }

    function View(): Core
      reads this
    {
      Core(lastCycle, recCount, crc, started)
    }

    /** revice_bustrace_begin */
    method Begin(cyclesPerSec: bv64, sink: ByteSink?)
      requires sink != null ==> sink.isOpen
      modifies this, sink
      ensures View() == FRESH && emit == sink
      ensures sink != null ==> sink.isOpen && sink.data == old(sink.data) + Header(cyclesPerSec)
    {
      emit, lastCycle, recCount, crc, started := sink, 0, 0, 0, true;
      var hdr := EncodeHeader(cyclesPerSec);
      Send(hdr[..]);
    }

    static method EncodeHeader(cyclesPerSec: bv64) returns (hdr: array<bv8>)
      ensures fresh(hdr) && hdr[..] == Header(cyclesPerSec)
    {
      hdr := new bv8[16](_ => 0);
      hdr[0], hdr[1], hdr[2], hdr[3] := 0x52, 0x42, 0x54, 0x31;
      ghost var h0 := hdr[..];
      StoreU16(hdr, 4, VERSION);
      SplicePrefix(h0, 4, PutU16(VERSION));
      assert h0[..4] == MAGIC;
      ghost var h1 := hdr[..6];
      hdr[6], hdr[7] := REC_SIZE as bv8, FLAG_HAS_PC;
      ghost var h2 := hdr[..];
      assert h2[..8] == h1 + [REC_SIZE as bv8, FLAG_HAS_PC];
      StoreU64(hdr, 8, cyclesPerSec);
      SplicePrefix(h2, 8, PutU64(cyclesPerSec));
      assert hdr[..] == hdr[..16];
    }

    /** revice_bustrace_access */
    method Record(a: Access)
      requires emit != null && started ==> emit.isOpen
      modifies this, emit
      ensures View() == AfterAccess(old(View()), a) && emit == old(emit)
      ensures emit != null ==> emit.isOpen == old(emit.isOpen) && emit.data == old(emit.data) + AccessBytes(old(View()), a)
    {
      if !started {
        return;
      }
      var delta := Advance(a.cycle);
      var rec := EncodeRecord(delta, a);
      var bytes := rec[..];
      crc := Compute(crc, bytes);
      recCount := recCount + 1;
      Send(bytes);
    }

    /** Move the cycle baseline and return the saturated distance to it. */
    method Advance(cycle: nat) returns (delta: nat)
      modifies `lastCycle
      ensures lastCycle == cycle && delta == Delta(old(lastCycle), cycle)
    {
      delta := if cycle >= lastCycle then cycle - lastCycle else 0;
      lastCycle := cycle;
      if delta > MAX_DELTA {
        delta := MAX_DELTA;
      }
    }

    /** Call the emit callback, if there is one. */
    method Send(bytes: seq<bv8>)
      requires emit != null ==> emit.isOpen
      modifies emit
      ensures emit != null ==> emit.isOpen && emit.data == old(emit.data) + bytes
    {
      if emit != null {
        emit.Append(bytes);
      }
    }

    static method EncodeRecord(delta: nat, a: Access) returns (rec: array<bv8>)
      requires delta <= MAX_DELTA
      ensures fresh(rec) && rec[..] == TraceFormat.Record(delta, a)
    {
      rec := new bv8[10](_ => 0);
      ghost var r0 := rec[..];
      StoreU32(rec, 0, delta as bv32);
      SplicePrefix(r0, 0, PutU32(delta as bv32));
      ghost var r1 := rec[..];
      StoreU16(rec, 4, a.addr);
      SplicePrefix(r1, 4, PutU16(a.addr));
      ghost var r2 := rec[..6];
      rec[6], rec[7] := a.val, a.rwFlags;
      ghost var r3 := rec[..];
      assert r3[..8] == r2 + [a.val, a.rwFlags];
      StoreU16(rec, 8, a.pc);
      SplicePrefix(r3, 8, PutU16(a.pc));
      assert rec[..] == rec[..10];
    }

    static method EncodeTrailer(recCount: nat, crc: bv32) returns (tr: array<bv8>)
      ensures fresh(tr) && tr[..] == Trailer(recCount, crc)
    {
      tr := new bv8[16](_ => 0);
      tr[0], tr[1], tr[2], tr[3] := 0x52, 0x42, 0x54, 0x65;
      ghost var t0 := tr[..];
      StoreU64(tr, 4, Word64(recCount));
      ghost var t1 := tr[..];
      StoreU32(tr, 12, crc);
      SplicePrefix(t0, 4, PutU64(Word64(recCount)));
      SplicePrefix(t1, 12, PutU32(crc));
      assert t0[..4] == END_MAGIC;
    }

    /** revice_bustrace_end */
    method End()
      requires emit != null && started ==> emit.isOpen
      modifies this, emit
      ensures View() == AfterEnd(old(View())) && emit == old(emit)
      ensures emit != null ==> emit.isOpen == old(emit.isOpen) && emit.data == old(emit.data) + EndBytes(old(View()))
    {
      if !started {
        return;
      }
      started := false;
      var tr := EncodeTrailer(recCount, crc);
      Send(tr[..]);
    }
  }
}
