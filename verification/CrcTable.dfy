/** crc32 of src/storage/wal_engine.c as the source writes it: a table filled on first use,
    then one lookup a byte. */
module CrcTable {
  import opened Base
  import opened Crc

  lemma ShiftEight(x: Reg)
    ensures ShiftN(x, 8) == Xor(ShiftN(Reg(LowByteWord(x.w)), 8), Shr8(x))
  {
    var low, high := Reg(LowByteWord(x.w)), Reg(HighBytesWord(x.w));
    WordBytes(x.w);
    assert Xor(low, high) == x;
    ShiftNXor(low, high, 8);
    EvenShifts(high);
  }

  function LowByteWord(x: bv32): bv32 {
    x & 0xFF
  }

  function HighBytesWord(x: bv32): bv32 {
    x & 0xFFFF_FF00
  }

  lemma WordBytes(x: bv32)
    ensures XorWord(LowByteWord(x), HighBytesWord(x)) == x
    ensures LowByteWord(HighBytesWord(x)) == 0 && Shr8Word(HighBytesWord(x)) == Shr8Word(x)
  {
  }

  lemma WordEvenShifts(x: bv32)
    requires LowByteWord(x) == 0
    ensures ShiftWord(ShiftWord(ShiftWord(ShiftWord(ShiftWord(ShiftWord(ShiftWord(ShiftWord(x))))))))
            == Shr8Word(x)
  {
  }

  lemma EvenShifts(x: Reg)
    requires LowByteWord(x.w) == 0
    ensures ShiftN(x, 8) == Shr8(x)
  {
    hide ShiftWord;
    var y := Shift(Shift(Shift(Shift(x))));
    assert ShiftN(x, 4) == y;
    assert ShiftN(y, 4) == Shift(Shift(Shift(Shift(y))));
    ShiftNAdds(x, 4, 4);
    WordEvenShifts(x.w);
  }

  /** The byte a lookup uses, and what the entry found is mixed with. */
  function Index(crc: bv32, b: byte): byte {
    ((crc ^ (b as bv32)) & 0xFF) as byte
  }

  function Mix(entry: bv32, crc: bv32): bv32 {
    entry ^ (crc >> 8)
  }

  lemma MixIsXor(entry: bv32, crc: bv32)
    ensures Mix(entry, crc) == XorWord(entry, Shr8Word(crc))
  {
  }

  lemma WordIndex(crc: bv32, b: byte)
    ensures Index(crc, b) as bv32 == LowByteWord(XorWord(crc, b as bv32))
    ensures Shr8Word(XorWord(crc, b as bv32)) == Shr8Word(crc)
    ensures Shr8Word(b as bv32) == 0
  {
  }

  lemma RegIndex(s: Reg, b: byte)
    ensures ByteReg(Index(s.w, b)) == Reg(LowByteWord(Xor(s, ByteReg(b)).w))
    ensures Shr8(Xor(s, ByteReg(b))) == Shr8(s) && Shr8(ByteReg(b)) == ZERO
  {
    WordIndex(s.w, b);
  }

  /** One lookup does the work of eight steps. */
  lemma LookupIsEightSteps(s: Reg, b: byte)
    ensures FeedAll(s, LowBits(ByteReg(b), 8)) == Xor(ShiftN(ByteReg(Index(s.w, b)), 8), Shr8(s))
  {
    hide Xor, Shr8, ByteReg, Index, LowByteWord, LowBits, FeedAll, ShiftN, ShrN;
    var x := Xor(s, ByteReg(b));
    FeedWord(s, ByteReg(b), 8);
    ShrByEight(ByteReg(b));
    RegIndex(s, b);
    XorUnits(ShiftN(x, 8));
    ShiftEight(x);
  }

  // ---- the loops ------------------------------------------------------------------------

  function IndexReg(i: int): Reg
    requires 0 <= i < 256
  {
    ByteReg(i as byte)
  }

  lemma ByteOfIndex(b: byte)
    ensures 0 <= b as int < 256 && (b as int) as byte == b
  {
  }

  ghost predicate Filled(table: seq<bv32>, upTo: nat) {
    && upTo <= |table| == 256
    && forall i {:trigger table[i]} :: 0 <= i < upTo ==> table[i] == ShiftN(IndexReg(i), 8).w
  }

  lemma Lookup(table: seq<bv32>, b: byte)
    requires Filled(table, 256)
    ensures 0 <= b as int < 256 && table[b as int] == ShiftN(ByteReg(b), 8).w
  {
    ByteOfIndex(b);
  }

  lemma StepFeeds(crc: bv32, b: byte, rest: seq<byte>)
    ensures FeedAll(Reg(XorWord(ShiftN(ByteReg(Index(crc, b)), 8).w, Shr8Word(crc))), Bits(rest))
            == FeedAll(Reg(crc), Bits([b] + rest))
  {
    hide Index, XorWord, Shr8Word, ByteReg;
    LookupIsEightSteps(Reg(crc), b);
    assert Bits([b] + rest) == LowBits(ByteReg(b), 8) + Bits(rest);
    FeedAllAppends(Reg(crc), LowBits(ByteReg(b), 8), Bits(rest));
  }

  /** The function's two static variables. */
  class Calculator {
    const table: array<bv32>
    var initialized: bool

    ghost predicate Valid()
      reads this, table
    {
      table.Length == 256 && (initialized ==> Filled(table[..], 256))
    }

    constructor ()
      ensures Valid() && !initialized && fresh(table)
    {
      table := new bv32[256](_ => 0);
      initialized := false;
    }

    method Initialize()
      requires Valid()
      modifies this, table
      ensures Valid() && initialized
    {
      var i := 0;
      while i < 256
        modifies table
        invariant 0 <= i <= 256 && Filled(table[..], i)
      {
        var crc := (i as byte) as bv32;
        var j := 0;
        while j < 8
          modifies {}
          invariant 0 <= j <= 8
          invariant ShiftN(Reg(crc), 8 - j) == ShiftN(IndexReg(i), 8)
        {
          if crc & 1 != 0 {
            crc := (crc >> 1) ^ 0xEDB88320;
          } else {
            crc := crc >> 1;
          }
          j := j + 1;
        }
        table[i] := crc;
        i := i + 1;
      }
      initialized := true;
    }

    method Crc32(data: seq<byte>) returns (result: bv32)
      requires Valid()
      modifies this, table
      ensures Valid() && initialized
      ensures Reg(result) == Crc.Crc32(data)
    {
      if !initialized {
        Initialize();
      }
      var crc := FeedThrough(data);
      result := crc ^ 0xFFFFFFFF;
    }

    method FeedThrough(data: seq<byte>) returns (crc: bv32)
      requires Valid() && initialized
      ensures Reg(crc) == FeedAll(ONES, Bits(data))
    {
      crc := 0xFFFFFFFF;
      var i := 0;
      assert data[0..] == data;
      while i < |data|
        invariant 0 <= i <= |data|
        invariant FeedAll(Reg(crc), Bits(data[i..])) == FeedAll(ONES, Bits(data))
      {
        crc := Step(crc, data[i], data[i + 1..]);
        assert data[i..] == [data[i]] + data[i + 1..];
        i := i + 1;
      }
    }

    method Step(crc: bv32, b: byte, ghost rest: seq<byte>) returns (next: bv32)
      requires Valid() && initialized
      ensures FeedAll(Reg(next), Bits(rest)) == FeedAll(Reg(crc), Bits([b] + rest))
    {
      hide Index, Mix, XorWord, Shr8Word, FeedAll, ShiftN, Bits, ByteReg;
      var index := Index(crc, b);
      Lookup(table[..], index);
      next := Mix(table[index as int], crc);
      MixIsXor(table[index as int], crc);
      StepFeeds(crc, b, rest);
    }
  }
}
