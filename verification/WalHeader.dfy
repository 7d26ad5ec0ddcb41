/** The file header of src/storage/wal_engine.c:41-47 and 89-110. Under natural alignment its
    checksum covers the first 36 of its 40 bytes, the checksum field itself included, so
    whether a freshly created header validates depends on what that field held before. */
module WalHeader {
  import opened Base
  import opened Crc
  import opened CrcTheorems
  import opened CrcInverse
  import opened WalRecord

  const MAGIC: seq<byte> := [0x58, 0x44, 0x45, 0x56, 0x5F, 0x57, 0x41, 0x4C]  // "XDEV_WAL"
  const VERSION := 1

  /** The 32 bytes before the checksum field; `gap` is the padding after the version. */
  function Front(gap: seq<byte>, created: nat, fileSize: nat): (bytes: seq<byte>)
    requires |gap| == 4
    ensures |bytes| == 32
  {
    MAGIC + Le(VERSION, 4) + gap + Le(created, 8) + Le(fileSize, 8)
  }

  /** create_wal_header on a buffer whose checksum field holds `was` and whose tail is `tail`. */
  function Create(gap: seq<byte>, created: nat, fileSize: nat, was: bv32, tail: seq<byte>): (bytes: seq<byte>)
    requires |gap| == |tail| == 4
    ensures |bytes| == FILE_HEADER
  {
    var front := Front(gap, created, fileSize);
    front + WordBytes(Crc32(front + WordBytes(was)).w) + tail
  }

  function Validate(h: seq<byte>): bool
    requires |h| == FILE_HEADER
  {
    h[..8] == MAGIC && h[8..12] == Le(VERSION, 4) && WordBytes(Crc32(h[..36]).w) == h[32..36]
  }

  lemma {:induction false} BitsAppend(a: seq<byte>, b: seq<byte>)
    ensures Bits(a + b) == Bits(a) + Bits(b)
    decreases a
  {
    if a == [] {
      assert a + b == b;
    } else {
      assert (a + b)[1..] == a[1..] + b;
      BitsAppend(a[1..], b);
    }
  }

  /** Two payloads that share all but a last word have equal CRCs only if the words are equal. */
  lemma LastWordDecides(front: seq<byte>, a: bv32, b: bv32)
    ensures Crc32(front + WordBytes(a)) == Crc32(front + WordBytes(b)) <==> a == b
  {
    var x, y := front + WordBytes(a), front + WordBytes(b);
    if a != b {
      assert x[|front|..] == WordBytes(a) && y[|front|..] == WordBytes(b);
      if WordBytes(a) == WordBytes(b) {
        WordBytesInjective(a, b);
      }
      BitsAppend(front, WordBytes(a));
      BitsAppend(front, WordBytes(b));
      BurstsAreDetected(x, y, 8 * |front|);
    }
  }

  /** A created header validates exactly when the checksum field already held the very checksum
      that gets stored there. */
  lemma CreatedValidates(gap: seq<byte>, created: nat, fileSize: nat, was: bv32, tail: seq<byte>)
    requires |gap| == |tail| == 4
    ensures Validate(Create(gap, created, fileSize, was, tail))
            <==> was == Crc32(Front(gap, created, fileSize) + WordBytes(was)).w
  {
    hide Front, Create, Validate, WordBytes, Crc32;
    var front := Front(gap, created, fileSize);
    var h := Create(gap, created, fileSize, was, tail);
    var sum := Crc32(front + WordBytes(was)).w;
    HeaderParts(gap, created, fileSize, was, tail);
    LastWordDecides(front, sum, was);
    if WordBytes(Crc32(h[..36]).w) == WordBytes(sum) {
      WordBytesInjective(Crc32(h[..36]).w, sum);
    }
  }

  /** A header of another kind or version is refused. */
  lemma OthersRefused(h: seq<byte>)
    requires |h| == FILE_HEADER && Validate(h)
    ensures h[..8] == [0x58, 0x44, 0x45, 0x56, 0x5F, 0x57, 0x41, 0x4C] && Value(h[8..12]) == 1
  {
    hide Crc32, WordBytes;
    Powers();
    FieldRoundTrip(VERSION, 4);
  }

  /** A header that validates, changed in front of its checksum only inside 32 consecutive bits,
      validates no more; changes behind the checksum go unnoticed. */
  lemma DamageIsSeen(h: seq<byte>, h': seq<byte>, p: nat)
    requires |h| == |h'| == FILE_HEADER && Validate(h) && h'[32..36] == h[32..36]
    requires AgreeOutside(h[..36], h'[..36], p)
    ensures Validate(h') <==> h'[..36] == h[..36]
  {
    hide Crc32, WordBytes, Le;
    assert h[8..12] == h[..36][8..12] && h'[8..12] == h'[..36][8..12];
    assert h[..8] == h[..36][..8] && h'[..8] == h'[..36][..8];
    if h'[..36] != h[..36] {
      BurstsAreDetected(h[..36], h'[..36], p);
      if WordBytes(Crc32(h[..36]).w) == WordBytes(Crc32(h'[..36]).w) {
        WordBytesInjective(Crc32(h[..36]).w, Crc32(h'[..36]).w);
      }
    }
  }

  /** The fields of a created header, each read from its own place. */
  lemma FrontReads(gap: seq<byte>, created: nat, fileSize: nat, was: bv32, tail: seq<byte>)
    requires |gap| == |tail| == 4 && created < U64 && fileSize < U64
    ensures var h := Create(gap, created, fileSize, was, tail);
            && h[..8] == MAGIC && Value(h[8..12]) == VERSION
            && Value(h[16..24]) == created && Value(h[24..32]) == fileSize
  {
    hide Crc32, WordBytes, Le, Value, Power256;
    Powers();
    FieldRoundTrip(VERSION, 4);
    FieldRoundTrip(created, 8);
    FieldRoundTrip(fileSize, 8);
    var h := Create(gap, created, fileSize, was, tail);
    assert h[8..12] == Le(VERSION, 4) && h[16..24] == Le(created, 8) && h[24..32] == Le(fileSize, 8);
  }

  lemma FrontStarts(gap: seq<byte>, created: nat, fileSize: nat)
    requires |gap| == 4
    ensures Front(gap, created, fileSize)[..8] == MAGIC && Front(gap, created, fileSize)[8..12] == Le(VERSION, 4)
  {
    hide Le;
  }

  lemma HeaderParts(gap: seq<byte>, created: nat, fileSize: nat, was: bv32, tail: seq<byte>)
    requires |gap| == |tail| == 4
    ensures var front := Front(gap, created, fileSize); var h := Create(gap, created, fileSize, was, tail);
            var sum := WordBytes(Crc32(front + WordBytes(was)).w);
            && h[..36] == front + sum && (Validate(h) <==> WordBytes(Crc32(h[..36]).w) == sum)
  {
    hide Crc32, WordBytes, Front, Le;
    FrontStarts(gap, created, fileSize);
    var h := Create(gap, created, fileSize, was, tail);
    assert h[..8] == MAGIC && h[8..12] == Le(VERSION, 4);
    assert h[32..36] == WordBytes(Crc32(Front(gap, created, fileSize) + WordBytes(was)).w);
  }

  /** The one content of the checksum field that lets a header with this front validate. */
  function AcceptedStamp(front: seq<byte>): bv32 {
    Solve32(Crc32(front + WordBytes(0))).w
  }

  /** A created header validates if and only if its checksum field held, before, the word that
      AcceptedStamp computes from the bytes in front of it: exactly one of 2^32. */
  lemma CreatedValidatesExactly(gap: seq<byte>, created: nat, fileSize: nat, was: bv32, tail: seq<byte>)
    requires |gap| == |tail| == 4
    ensures Validate(Create(gap, created, fileSize, was, tail))
            <==> was == AcceptedStamp(Front(gap, created, fileSize))
  {
    hide Front, Create, Validate, WordBytes, Crc32, Solve32;
    var front := Front(gap, created, fileSize);
    var none := Crc32(front + WordBytes(0));
    CreatedValidates(gap, created, fileSize, was, tail);
    StampEntersLinearly(front, was);
    XorMoves(Reg(was), none, ShiftN(Reg(was), 32));
    Solve32Exactly(Reg(was), none);
  }

  lemma StampEntersLinearly(front: seq<byte>, w: bv32)
    ensures Crc32(front + WordBytes(w)) == Xor(Crc32(front + WordBytes(0)), ShiftN(Reg(w), 32))
  {
    hide Crc32, WordBytes, FeedAll, Bits, Xor, ShiftN;
    var s, p := FeedAll(ONES, Bits(front)), Reg(w);
    LastWord(front, w);
    LastWord(front, 0);
    ShiftNXor(s, p, 32);
    XorUnits(s);
    XorSwaps(ShiftN(s, 32), ShiftN(p, 32), ONES);
  }

  lemma XorSwaps(a: Reg, b: Reg, c: Reg)
    ensures Xor(Xor(a, b), c) == Xor(Xor(a, c), b)
  {
  }

  lemma XorMoves(a: Reg, b: Reg, c: Reg)
    ensures a == Xor(b, c) <==> Xor(a, c) == b
  {
    hide Xor;
    XorZero(a, Xor(b, c));
    XorZero(Xor(a, c), b);
    XorAssociates(a, b, c);
    XorSwaps(a, b, c);
  }

  /** So at most one of the 2^32 contents of the field lets the header validate: a header
      created over a zero field and one created over any other cannot both be accepted. */
  lemma AtMostOneValidates(gap: seq<byte>, created: nat, fileSize: nat, was: bv32, was': bv32, tail: seq<byte>)
    requires |gap| == |tail| == 4
    requires Validate(Create(gap, created, fileSize, was, tail))
    requires Validate(Create(gap, created, fileSize, was', tail))
    ensures was == was'
  {
    hide Validate, Create, AcceptedStamp;
    CreatedValidatesExactly(gap, created, fileSize, was, tail);
    CreatedValidatesExactly(gap, created, fileSize, was', tail);
  }

  lemma LastWord(front: seq<byte>, w: bv32)
    ensures Crc32(front + WordBytes(w)) == Xor(ShiftN(Xor(FeedAll(ONES, Bits(front)), Reg(w)), 32), ONES)
  {
    var s := FeedAll(ONES, Bits(front));
    BitsAppend(front, WordBytes(w));
    FeedAllAppends(ONES, Bits(front), Bits(WordBytes(w)));
    BitsOfWord(w);
    FeedWord(s, Reg(w), 32);
    ShrAll(Reg(w));
    XorUnits(ShiftN(Xor(s, Reg(w)), 32));
  }

  lemma BitsOfWord(w: bv32)
    ensures Bits(WordBytes(w)) == LowBits(Reg(w), 32)
  {
    hide WordBytes, Bits, LowBits, Shr8Word, ByteReg;
    var p := WordBytes(w);
    WordShr8s(w);
    LowThirtyTwo(Reg(w));
    ByteOfWord(w, p[0]);
    ByteOfWord(Shr8Word(w), p[1]);
    ByteOfWord(Shr8Word(Shr8Word(w)), p[2]);
    ByteOfWord(Shr8Word(Shr8Word(Shr8Word(w))), p[3]);
    BitsOfTwo(p[0], p[1]);
    BitsOfTwo(p[2], p[3]);
    BitsAppend([p[0], p[1]], [p[2], p[3]]);
    assert p == [p[0], p[1]] + [p[2], p[3]];
  }

  lemma BitsOfTwo(a: byte, b: byte)
    ensures Bits([a, b]) == LowBits(ByteReg(a), 8) + LowBits(ByteReg(b), 8)
  {
    assert [a, b][1..] == [b] && [b][1..] == [];
  }

  lemma WordShr8s(w: bv32)
    ensures var p := WordBytes(w);
            && p[0] as bv32 == w & 0xFF && p[1] as bv32 == Shr8Word(w) & 0xFF
            && p[2] as bv32 == Shr8Word(Shr8Word(w)) & 0xFF
            && p[3] as bv32 == Shr8Word(Shr8Word(Shr8Word(w))) & 0xFF
  {
  }

  function AndWord(a: bv32, b: bv32): bv32 {
    a & b
  }

  /** The two words agree where `mask` has ones. */
  predicate AgreeUnder(mask: Reg, a: Reg, b: Reg) {
    AndWord(a.w, mask.w) == AndWord(b.w, mask.w)
  }

  lemma WordAgreesFurther(mask: bv32, a: bv32, b: bv32)
    requires AndWord(a, mask) == AndWord(b, mask)
    ensures LowWord(mask) ==> LowWord(a) == LowWord(b)
    ensures AndWord(ShrWord(a), ShrWord(mask)) == AndWord(ShrWord(b), ShrWord(mask))
  {
  }

  predicate AllSet(bits: seq<bool>) {
    forall k :: 0 <= k < |bits| ==> bits[k]
  }

  lemma {:induction false} AgreeingLows(mask: Reg, a: Reg, b: Reg, n: nat)
    requires AgreeUnder(mask, a, b) && AllSet(LowBits(mask, n))
    ensures LowBits(a, n) == LowBits(b, n)
    decreases n
  {
    hide AndWord, ShrWord, LowWord;
    if n > 0 {
      var lows := LowBits(mask, n);
      assert lows[0] == Low(mask) && lows[1..] == LowBits(Shr(mask), n - 1);
      assert AllSet(lows[1..]);
      WordAgreesFurther(mask.w, a.w, b.w);
      AgreeingLows(Shr(mask), Shr(a), Shr(b), n - 1);
    }
  }

  lemma ByteAgrees(w: bv32, b: byte)
    requires b as bv32 == w & 0xFF
    ensures AgreeUnder(Reg(0xFF), ByteReg(b), Reg(w))
  {
  }

  lemma ByteOfWord(w: bv32, b: byte)
    requires b as bv32 == w & 0xFF
    ensures LowBits(ByteReg(b), 8) == LowBits(Reg(w), 8)
  {
    hide AgreeUnder, LowBits, EightLows, ByteReg;
    OnesBytes();
    LowEight(Reg(0xFF));
    ByteAgrees(w, b);
    AgreeingLows(Reg(0xFF), ByteReg(b), Reg(w), 8);
  }
}
