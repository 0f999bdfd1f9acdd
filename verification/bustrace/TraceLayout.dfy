/** The bytes of a trace file at their documented offsets. */
module TraceLayout {
  import opened Common
  import opened Crc32
  import opened TraceFormat

  lemma JoinBytes(a: bv8, b: bv8)
    ensures ((a as bv16) | ((b as bv16) << 8)) as int == a as int + 0x100 * (b as int)
  {
  }

  lemma TwoByteSum(b: seq<bv8>)
    requires |b| == 2
    ensures Value(b) == b[0] as int + 0x100 * (b[1] as int)
  {
    ValueStep(b, b[0], b[1..]);
    ValueStep(b[1..], b[1], []);
  }

  lemma TwoByteValue(b: seq<bv8>)
    requires |b| == 2
    ensures Value(b) == GetU16(b) as int
  {
    TwoByteSum(b);
    JoinBytes(b[0], b[1]);
  }

  lemma U16Value(x: bv16)
    ensures Value(PutU16(x)) == x as int
  {
    U16RoundTrip(x, PutU16(x));
    TwoByteValue(PutU16(x));
  }

  lemma U32Value(x: bv32)
    ensures Value(PutU32(x)) == x as int
  {
    U32RoundTrip(x);
    FieldValue(PutU32(x));
  }

  lemma {:induction false} ValueSplit(a: seq<bv8>, b: seq<bv8>)
    ensures Value(a + b) == Value(a) + Power(0x100, |a|) * Value(b)
  {
    if a == [] {
      assert a + b == b;
    } else {
      assert (a + b)[1..] == a[1..] + b;
      ValueSplit(a[1..], b);
      Regrouped(Power(0x100, |a| - 1), Value(b));
    }
  }

  lemma Regrouped(p: int, v: int)
    ensures 0x100 * (p * v) == (0x100 * p) * v
  {
  }

  lemma Halves(x: bv64, lo: bv32, hi: bv32)
    requires lo == (x & 0xffff_ffff) as bv32 && hi == (x >> 32) as bv32
    ensures x == (lo as bv64) | ((hi as bv64) << 32)
    ensures PutU64(x)[..4] == PutU32(lo) && PutU64(x)[4..] == PutU32(hi)
  {
  }

  lemma U64Value(x: bv64)
    ensures Value(PutU64(x)) == x as int
  {
    var lo, hi := (x & 0xffff_ffff) as bv32, (x >> 32) as bv32;
    Halves(x, lo, hi);
    JoinHalves(lo, hi);
    U32Value(lo);
    U32Value(hi);
    FourDigits(4);
    ValueSplit(PutU32(lo), PutU32(hi));
    assert PutU64(x) == PutU64(x)[..4] + PutU64(x)[4..];
  }

  /** The record of an access that comes when the clock was last seen at `prev`. */
  ghost predicate RecordAt(rec: seq<bv8>, prev: nat, a: Access)
    requires |rec| == 10
  {
    && Value(rec[..4]) == (if a.cycle < prev then 0 else if a.cycle - prev > 0xffff_ffff then 0xffff_ffff else a.cycle - prev)
    && Value(rec[4..6]) == a.addr as int && rec[6] == a.val && rec[7] == a.rwFlags && Value(rec[8..]) == a.pc as int
  }

  lemma Slices(d: seq<bv8>, addr: seq<bv8>, mid: seq<bv8>, pc: seq<bv8>, rec: seq<bv8>)
    requires |d| == 4 && |addr| == |mid| == |pc| == 2 && rec == d + addr + mid + pc
    ensures rec[..4] == d && rec[4..6] == addr && rec[6] == mid[0] && rec[7] == mid[1] && rec[8..] == pc
  {
  }

  lemma RecordSlices(delta: nat, a: Access, rec: seq<bv8>)
    requires delta <= MAX_DELTA && rec == Record(delta, a)
    ensures rec[..4] == PutU32(delta as bv32) && rec[4..6] == PutU16(a.addr) && rec[8..] == PutU16(a.pc)
    ensures rec[6] == a.val && rec[7] == a.rwFlags
  {
    Slices(PutU32(delta as bv32), PutU16(a.addr), [a.val, a.rwFlags], PutU16(a.pc), rec);
  }

  lemma RecordValues(delta: nat, a: Access, rec: seq<bv8>)
    requires delta <= MAX_DELTA && rec == Record(delta, a)
    ensures Value(rec[..4]) == delta && Value(rec[4..6]) == a.addr as int && Value(rec[8..]) == a.pc as int
    ensures rec[6] == a.val && rec[7] == a.rwFlags
  {
    RecordSlices(delta, a, rec);
    DeltaRoundTrip(delta);
    U16Value(a.addr);
    U16Value(a.pc);
  }

  lemma RecordFields(prev: nat, a: Access)
    ensures RecordAt(Record(Delta(prev, a.cycle), a), prev, a)
  {
    RecordValues(Delta(prev, a.cycle), a, Record(Delta(prev, a.cycle), a));
  }

  lemma {:induction false} BodyAt(prev: nat, accesses: seq<Access>, k: nat)
    requires k < |accesses|
    ensures RecordAt(Body(prev, accesses)[10 * k..10 * k + 10], if k == 0 then prev else accesses[k - 1].cycle, accesses[k])
    decreases k
  {
    var a, body := accesses[0], Body(prev, accesses);
    var rest := Body(a.cycle, accesses[1..]);
    if k == 0 {
      RecordFields(prev, a);
      assert body[0..10] == Record(Delta(prev, a.cycle), a);
    } else {
      BodyAt(a.cycle, accesses[1..], k - 1);
      assert body[10 * k..10 * k + 10] == rest[10 * (k - 1)..10 * (k - 1) + 10];
    }
  }

  lemma HeaderAt(cyclesPerSec: bv64)
    ensures Header(cyclesPerSec)[..8] == [0x52, 0x42, 0x54, 0x31, 1, 0, 10, 1]
    ensures Value(Header(cyclesPerSec)[8..]) == cyclesPerSec as int
  {
    var h := Header(cyclesPerSec);
    U64Value(cyclesPerSec);
    assert h[8..] == PutU64(cyclesPerSec);
    VersionBytes();
    assert h[..8] == MAGIC + PutU16(VERSION) + [10, 1];
  }

  lemma VersionBytes()
    ensures PutU16(VERSION) == [1, 0]
  {
  }

  lemma TrailerAt(recCount: nat, crc: bv32)
    requires recCount < TWO64
    ensures var t := Trailer(recCount, crc);
      t[..4] == [0x52, 0x42, 0x54, 0x65] && Value(t[4..12]) == recCount && Value(t[12..]) == crc as int
  {
    var t := Trailer(recCount, crc);
    Word64Value(recCount);
    U64Value(Word64(recCount));
    U32Value(crc);
    assert t[4..12] == PutU64(Word64(recCount)) && t[12..] == PutU32(crc);
  }

  /** Every byte of the file of a recording is where the format puts it: header, record
      k at offset 16 + 10 * k, and the trailer after the last record, with the number
      of records and the checksum of all record bytes. */
  lemma FileLayout(cyclesPerSec: bv64, accesses: seq<Access>, k: nat)
    requires |accesses| < TWO64
    ensures var file, end := WriteTrace(cyclesPerSec, accesses), 16 + 10 * |accesses|;
      && |file| == end + 16
      && file[..8] == [0x52, 0x42, 0x54, 0x31, 1, 0, 10, 1] && Value(file[8..16]) == cyclesPerSec as int
      && (k < |accesses| ==>
            RecordAt(file[16 + 10 * k..16 + 10 * k + 10], if k == 0 then 0 else accesses[k - 1].cycle, accesses[k]))
      && file[end..end + 4] == [0x52, 0x42, 0x54, 0x65]
      && Value(file[end + 4..end + 12]) == |accesses|
      && Value(file[end + 12..]) == Crc(0, file[16..end]) as int
  {
    var body := Body(0, accesses);
    HeaderAt(cyclesPerSec);
    TrailerAt(|accesses|, Crc(0, body));
    Parts(Header(cyclesPerSec), body, Trailer(|accesses|, Crc(0, body)));
    if k < |accesses| {
      BodyAt(0, accesses, k);
      InBody(Header(cyclesPerSec), body, Trailer(|accesses|, Crc(0, body)), k);
    }
  }

  lemma Parts(h: seq<bv8>, body: seq<bv8>, t: seq<bv8>)
    requires |h| == |t| == 16
    ensures var file, end := h + body + t, 16 + |body|;
      && file[..8] == h[..8] && file[8..16] == h[8..] && file[16..end] == body
      && file[end..end + 4] == t[..4] && file[end + 4..end + 12] == t[4..12] && file[end + 12..] == t[12..]
  {
  }

  lemma InBody(h: seq<bv8>, body: seq<bv8>, t: seq<bv8>, k: nat)
    requires |h| == |t| == 16 && 10 * k + 10 <= |body|
    ensures (h + body + t)[16 + 10 * k..16 + 10 * k + 10] == body[10 * k..10 * k + 10]
  {
  }
}
