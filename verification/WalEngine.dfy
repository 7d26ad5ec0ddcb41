/** The engine of src/storage/wal_engine.c as an object over its mapped file. */
module WalEngine {
  import opened Base
  import opened Crc
  import CrcTable
  import WalHeader
  import opened WalLog
  import opened WalRecord

  datatype Stats = Stats(
    totalWrites: nat, totalSyncs: nat, totalBytes: nat,
    currentLsn: nat, lastSyncLsn: nat, fileSize: nat, currentOffset: nat)

  class Engine {
    const region: array<byte>
    const crc: CrcTable.Calculator
    var currentOffset: nat
    var nextLsn: nat
    var lastSyncLsn: nat
    var totalWrites: nat
    var totalSyncs: nat
    var totalBytes: nat
    ghost var durable: seq<byte>

    ghost predicate Valid()
      reads this, region, crc, crc.table
    {
      crc.Valid() && nextLsn < U64
    }

    ghost function View(): Wal
      reads this, region
    {
      Wal(region[..], currentOffset, nextLsn, lastSyncLsn, totalWrites, totalSyncs, totalBytes, durable)
    }

    /** A fresh file. `gap`, `was` and `tail` are the bytes of the header buffer nothing sets. */
    constructor (initialSize: nat, now: nat, gap: seq<byte>, was: bv32, tail: seq<byte>)
      requires initialSize > 0 && |gap| == |tail| == 4
      ensures Valid() && View() == Fresh(initialSize, WalHeader.Create(gap, now, initialSize, was, tail))
      ensures fresh(region) && fresh(crc) && fresh(crc.table)
    {
      region := new byte[initialSize](_ => 0);
      crc := new CrcTable.Calculator();
      currentOffset, nextLsn, lastSyncLsn := FILE_HEADER, 1, 0;
      totalWrites, totalSyncs, totalBytes := 0, 0, 0;
      durable := [];
      new;
      var header := BuildFileHeader(initialSize, now, gap, was, tail);
      WriteFileHeader(header);
    }

    method WriteFileHeader(header: seq<byte>)
      requires |header| == FILE_HEADER && forall k :: 0 <= k < region.Length ==> region[k] == 0
      modifies region
      ensures region[..] == Fresh(region.Length, header).region
    {
      var part := if region.Length < FILE_HEADER then header[..region.Length] else header;
      CopyIn(0, part);
    }

    method BuildFileHeader(initialSize: nat, now: nat, gap: seq<byte>, was: bv32, tail: seq<byte>)
      returns (header: seq<byte>)
      requires crc.Valid() && |gap| == |tail| == 4
      modifies crc, crc.table
      ensures crc.Valid() && header == WalHeader.Create(gap, now, initialSize, was, tail)
    {
      var front := WalHeader.Front(gap, now, initialSize);
      var sum := crc.Crc32(front + WordBytes(was));
      header := front + WordBytes(sum) + tail;
    }

    method CopyIn(at: nat, bytes: seq<byte>)
      requires at + |bytes| <= region.Length
      modifies region
      ensures region[..] == Overwrite(old(region[..]), at, bytes)
    {
      var i := 0;
      while i < |bytes|
        invariant 0 <= i <= |bytes|
        invariant region[..at + i] == old(region[..])[..at] + bytes[..i]
        invariant region[at + i..] == old(region[..])[at + i..]
      {
        region[at + i] := bytes[i];
        i := i + 1;
      }
      assert region[..] == region[..at + i] + region[at + i..];
    }

    method Append(name: seq<byte>, op: nat, data: seq<byte>, now: nat, junk: Junk) returns (status: Status)
      requires Valid() && EventFits(WalLog.Append(name, op, data, now, junk))
      modifies this`nextLsn, this`currentOffset, this`totalWrites, this`totalBytes, region, crc, crc.table
      ensures Valid()
      ensures (View(), status) == DoAppend(old(View()), WalLog.Append(name, op, data, now, junk))
    {
      hide NewRecord, Header, Overwrite;
      var e := WalLog.Append(name, op, data, now, junk);
      ghost var was := View();
      NewRecordFits(nextLsn, e);
      ghost var bytes := Encode(NewRecord(nextLsn, e));
      var header := BuildHeader(nextLsn, e);
      assert bytes == header + data;
      assert View() == was;
      nextLsn := (nextLsn + 1) % U64;
      var size := RECORD_HEADER + |data|;
      if currentOffset + size > region.Length {
        return Io;
      }
      WriteRecord(header, data);
      totalWrites := totalWrites + 1;
      totalBytes := totalBytes + size;
      return Ok;
    }

    method WriteRecord(header: seq<byte>, data: seq<byte>)
      requires |header| == RECORD_HEADER && currentOffset + |header| + |data| <= region.Length
      modifies this`currentOffset, region
      ensures region[..] == Overwrite(old(region[..]), old(currentOffset), header + data)
      ensures currentOffset == old(currentOffset) + |header + data|
    {
      CopyIn(currentOffset, header);
      currentOffset := currentOffset + RECORD_HEADER;
      if |data| > 0 {
        CopyIn(currentOffset, data);
        currentOffset := currentOffset + |data|;
      }
    }

    method BuildHeader(lsn: nat, e: Event) returns (header: seq<byte>)
      requires Valid() && e.Append? && EventFits(e) && lsn < U64
      modifies crc, crc.table
      ensures Valid() && header == Header(NewRecord(lsn, e))
    {
      var draft := Record(lsn, e.junk.stamp, e.now, e.op, NameField(e.name, e.junk.nameEnd), e.junk.pad, e.data);
      var sum := crc.Crc32(Header(draft)[..RECORD_HEADER - 4]);
      if |e.data| > 0 {
        var dataSum := crc.Crc32(e.data);
        sum := XorWord(sum, dataSum);
      } else {
        NoDataNoChange(Header(draft));
      }
      assert Reg(sum) == Checksum(Header(draft), e.data);
      header := Header(draft.(stamp := WordBytes(sum)));
    }

    method Sync(msyncOk: bool, fsyncOk: bool) returns (status: Status)
      requires Valid()
      modifies this`lastSyncLsn, this`totalSyncs, this`durable
      ensures Valid()
      ensures (View(), status) == DoSync(old(View()), msyncOk, fsyncOk)
    {
      if !msyncOk {
        return Io;
      }
      if !fsyncOk {
        return Io;
      }
      durable := if currentOffset <= region.Length then region[..currentOffset] else region[..];
      lastSyncLsn := if nextLsn == 0 then U64 - 1 else nextLsn - 1;
      totalSyncs := totalSyncs + 1;
      return Ok;
    }

    method GetStats() returns (stats: Stats)
      requires Valid()
      ensures var w := View();
              stats == Stats(w.totalWrites, w.totalSyncs, w.totalBytes,
                             if w.nextLsn == 0 then U64 - 1 else w.nextLsn - 1,
                             w.lastSyncLsn, |w.region|, w.offset)
    {
      stats := Stats(totalWrites, totalSyncs, totalBytes, if nextLsn == 0 then U64 - 1 else nextLsn - 1,
                     lastSyncLsn, region.Length, currentOffset);
    }
  }
}
