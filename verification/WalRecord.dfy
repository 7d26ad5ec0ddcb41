/** The record layout of src/storage/wal_engine.c under natural alignment on a little-endian
    64-bit machine (a 160-byte record header), and when it can be read back. */
module WalRecord {
  import opened Base
  import opened Crc

  const FILE_HEADER := 40     // sizeof(wal_header_t)
  const RECORD_HEADER := 160  // sizeof(wal_record_header_t)
  const NAME_FIELD := 128

  /** `stamp` holds the four bytes of the checksum, `pad` the tail padding. */
  datatype Record = Record(
    lsn: nat,
    stamp: seq<byte>,
    timestamp: nat,
    op: nat,
    name: seq<byte>,
    pad: seq<byte>,
    data: seq<byte>)

  ghost predicate Fits(r: Record) {
    && r.lsn < U64 && |r.stamp| == 4 && r.timestamp < U64 && r.op < U32
    && |r.name| == NAME_FIELD && |r.pad| == 4
  }

  /** An unsigned field, least significant byte first. */
  function Le(n: nat, k: nat): (bytes: seq<byte>)
    ensures |bytes| == k
    decreases k
  {
    if k == 0 then [] else [(n % 256) as byte] + Le(n / 256, k - 1)
  }

  function Value(bytes: seq<byte>): nat
    decreases bytes
  {
    if bytes == [] then 0 else bytes[0] as int + 256 * Value(bytes[1..])
  }

  function Power256(k: nat): nat {
    if k == 0 then 1 else 256 * Power256(k - 1)
  }

  lemma {:induction false} FieldRoundTrip(n: nat, k: nat)
    requires n < Power256(k)
    ensures Value(Le(n, k)) == n
    decreases k
  {
    if k > 0 {
      ByteRoundTrip(n % 256);
      FieldRoundTrip(n / 256, k - 1);
      assert Le(n, k)[1..] == Le(n / 256, k - 1);
    }
  }

  /** Byte i of a field is the i-th least significant. */
  lemma {:induction false} LeAt(n: nat, k: nat, i: nat)
    requires i < k
    ensures Power256(i) > 0 && Le(n, k)[i] as int == n / Power256(i) % 256
    decreases k
  {
    ByteRoundTrip(n % 256);
    if i > 0 {
      LeAt(n / 256, k - 1, i - 1);
      DivTwice(n, Power256(i - 1));
    }
  }

  lemma DivTwice(n: nat, d: nat)
    requires d > 0
    ensures n / 256 / d == n / (256 * d)
  {
    var q, r := n / 256 / d, n / 256 % d;
    assert n / 256 == q * d + r;
    assert n == 256 * (q * d + r) + n % 256;
    assert 256 * (q * d) == q * (256 * d);
    Quotient(n, 256 * d, q, 256 * r + n % 256);
  }

  lemma Quotient(n: nat, d: nat, q: nat, r: nat)
    requires d > 0 && n == q * d + r && r < d
    ensures n / d == q
  {
    var gap := n / d - q;
    assert n == d * (n / d) + n % d;
    assert d * (n / d) - q * d == d * gap;
    assert gap >= 1 ==> d * gap >= d;
    assert gap <= -1 ==> d * gap + d <= 0;
  }

  /** The length field keeps the low 32 bits of the payload length. */
  function LengthField(r: Record): (length: nat)
    ensures length <= |r.data|
  {
    |r.data| % U32
  }

  function Header(r: Record): (bytes: seq<byte>)
    requires |r.stamp| == 4 && |r.name| == NAME_FIELD && |r.pad| == 4
    ensures |bytes| == RECORD_HEADER
  {
    Le(r.lsn, 8) + Le(LengthField(r), 4) + r.stamp + Le(r.timestamp, 8) + Le(r.op, 4) + r.name + r.pad
  }

  function Encode(r: Record): seq<byte>
    requires |r.stamp| == 4 && |r.name| == NAME_FIELD && |r.pad| == 4
  {
    Header(r) + r.data
  }

  ghost predicate AllFit(rs: seq<Record>) {
    forall i :: 0 <= i < |rs| ==> Fits(rs[i])
  }

  ghost function EncodeAll(rs: seq<Record>): seq<byte>
    requires AllFit(rs)
  {
    if rs == [] then [] else EncodeAll(rs[..|rs| - 1]) + Encode(rs[|rs| - 1])
  }

  // ---- reading back ---------------------------------------------------------------------

  /** The fields of a header and the payload length it announces. */
  function ParseHeader(h: seq<byte>): (Record, nat)
    requires |h| == RECORD_HEADER
  {
    (Record(Value(h[..8]), h[12..16], Value(h[16..24]), Value(h[24..28]), h[28..156], h[156..], []),
     Value(h[8..12]))
  }

  /** The record at the front of `b`: a header, then as many bytes as its length field says. */
  function Parse(b: seq<byte>): Option<Record> {
    if |b| < RECORD_HEADER then None
    else
      var (r, length) := ParseHeader(b[..RECORD_HEADER]);
      if |b| < RECORD_HEADER + length then None
      else Some(r.(data := b[RECORD_HEADER..RECORD_HEADER + length]))
  }

  /** Walks by header size plus length to the end of `b`. */
  function Walk(b: seq<byte>): Option<seq<Record>>
    decreases |b|
  {
    if b == [] then Some([])
    else
      match Parse(b)
      case None => None
      case Some(r) =>
        match Walk(b[RECORD_HEADER + |r.data|..])
        case None => None
        case Some(rs) => Some([r] + rs)
  }

  lemma Powers()
    ensures Power256(4) == U32 && Power256(8) == U64
  {
    assert Power256(4) == 256 * (256 * (256 * 256));
    assert Power256(8) == 256 * (256 * (256 * (256 * Power256(4))));
  }

  lemma HeaderSlices(r: Record)
    requires Fits(r)
    ensures var h := Header(r);
            && h[..8] == Le(r.lsn, 8) && h[8..12] == Le(LengthField(r), 4) && h[12..16] == r.stamp
            && h[16..24] == Le(r.timestamp, 8) && h[24..28] == Le(r.op, 4)
            && h[28..156] == r.name && h[156..] == r.pad
  {
    hide Le;
  }

  lemma HeaderParses(r: Record)
    requires Fits(r)
    ensures ParseHeader(Header(r)) == (r.(data := []), LengthField(r))
  {
    Powers();
    HeaderSlices(r);
    FieldRoundTrip(r.lsn, 8);
    FieldRoundTrip(LengthField(r), 4);
    FieldRoundTrip(r.timestamp, 8);
    FieldRoundTrip(r.op, 4);
  }

  lemma ParseEncoded(r: Record, rest: seq<byte>)
    requires Fits(r)
    ensures var parsed := Parse(Encode(r) + rest);
            && parsed.Some? && parsed.value == r.(data := r.data[..LengthField(r)])
  {
    hide Header, ParseHeader;
    var b := Encode(r) + rest;
    HeaderParses(r);
    assert b[..RECORD_HEADER] == Header(r);
    assert b[RECORD_HEADER..RECORD_HEADER + LengthField(r)] == r.data[..LengthField(r)];
  }

  lemma {:induction false} EncodeAllFront(r: Record, rs: seq<Record>)
    requires Fits(r) && AllFit(rs)
    ensures AllFit([r] + rs) && EncodeAll([r] + rs) == Encode(r) + EncodeAll(rs)
    decreases |rs|
  {
    hide Encode;
    assert AllFit([r] + rs);
    if rs == [] {
      assert ([r] + rs)[..0] == [];
      assert EncodeAll([]) == [];
      assert [r] + rs == [r];
    } else {
      var last := |rs| - 1;
      assert ([r] + rs)[..last + 1] == [r] + rs[..last];
      EncodeAllFront(r, rs[..last]);
    }
  }

  ghost predicate LengthsFit(rs: seq<Record>) {
    forall i :: 0 <= i < |rs| ==> |rs[i].data| < U32
  }

  /** The stream of records reads back as exactly those records if and only if every payload is
      shorter than 2^32 bytes; a longer one is cut to its length's low 32 bits. */
  lemma {:induction false} WalkReadsBack(rs: seq<Record>)
    requires AllFit(rs)
    ensures Walk(EncodeAll(rs)) == Some(rs) <==> LengthsFit(rs)
    decreases |rs|
  {
    hide Parse, Header;
    if rs != [] {
      var r, rest := rs[0], rs[1..];
      assert rs == [r] + rest;
      EncodeAllFront(r, rest);
      var b := EncodeAll(rs);
      ParseEncoded(r, EncodeAll(rest));
      WalkReadsBack(rest);
      assert Walk(b).Some? ==> Walk(b).value[0] == Parse(b).value;
      if |r.data| < U32 {
        assert r.data[..LengthField(r)] == r.data;
        assert Parse(b) == Some(r);
        assert b[RECORD_HEADER + |r.data|..] == EncodeAll(rest);
        assert Walk(b) == Some(rs) <==> Walk(EncodeAll(rest)) == Some(rest);
      } else {
        assert |Parse(b).value.data| != |r.data|;
      }
    }
  }

  // ---- the checksum ---------------------------------------------------------------------

  function WordBytes(w: bv32): (bytes: seq<byte>)
    ensures |bytes| == 4
  {
    [(w & 0xFF) as byte, ((w >> 8) & 0xFF) as byte, ((w >> 16) & 0xFF) as byte, ((w >> 24) & 0xFF) as byte]
  }

  lemma WordBytesInjective(a: bv32, b: bv32)
    requires WordBytes(a) == WordBytes(b)
    ensures a == b
  {
    var p, q := WordBytes(a), WordBytes(b);
    assert p[0] == q[0] && p[1] == q[1] && p[2] == q[2] && p[3] == q[3];
    WordFromBytes(a);
    WordFromBytes(b);
  }

  lemma WordFromBytes(a: bv32)
    ensures var p := WordBytes(a);
            a == (p[0] as bv32) | ((p[1] as bv32) << 8) | ((p[2] as bv32) << 16) | ((p[3] as bv32) << 24)
  {
  }

  /** The checksum covers the header but its last four bytes, with whatever the checksum field
      held before, and the payload. */
  function Checksum(header: seq<byte>, data: seq<byte>): Reg
    requires |header| == RECORD_HEADER
  {
    Xor(Crc32(header[..RECORD_HEADER - 4]), Crc32(data))
  }

  /** An empty payload leaves the header's checksum alone, so skipping it changes nothing. */
  lemma NoDataNoChange(header: seq<byte>)
    requires |header| == RECORD_HEADER
    ensures Checksum(header, []) == Crc32(header[..RECORD_HEADER - 4])
  {
    XorUnits(ONES);
    XorUnits(Crc32(header[..RECORD_HEADER - 4]));
  }
}
