/** The write-ahead log of src/storage/wal_engine.c as a machine on values: append, sync,
    crash; and what any run of it guarantees. */
module WalLog {
  import opened Base
  import opened Crc
  import opened CrcTheorems
  import opened WalRecord

  /** `durable` is the part of the file that the last successful sync put on disk. */
  datatype Wal = Wal(
    region: seq<byte>,
    offset: nat,
    nextLsn: nat,
    lastSyncLsn: nat,
    totalWrites: nat,
    totalSyncs: nat,
    totalBytes: nat,
    durable: seq<byte>)

  /** What the stack held where the source writes nothing: the checksum field before the
      checksum is stored, the last byte of the name, the tail padding. */
  datatype Junk = Junk(stamp: seq<byte>, nameEnd: byte, pad: seq<byte>)

  datatype Event =
    | Append(name: seq<byte>, op: nat, data: seq<byte>, now: nat, junk: Junk)
    | Sync(msyncOk: bool, fsyncOk: bool)

  predicate EventFits(e: Event) {
    e.Append? ==> e.op < U32 && e.now < U64 && |e.junk.stamp| == 4 && |e.junk.pad| == 4
  }

  function Zero(n: nat): (z: seq<byte>)
    ensures |z| == n
  {
    seq(n, _ => 0 as byte)
  }

  /** strncpy of at most 127 bytes, zero padded. */
  function NameField(name: seq<byte>, end: byte): (field: seq<byte>)
    ensures |field| == NAME_FIELD
  {
    (if |name| < NAME_FIELD - 1 then name + Zero(NAME_FIELD - 1 - |name|) else name[..NAME_FIELD - 1]) + [end]
  }

  function NewRecord(lsn: nat, e: Event): Record
    requires e.Append? && EventFits(e)
  {
    var draft := Record(lsn, e.junk.stamp, e.now, e.op, NameField(e.name, e.junk.nameEnd), e.junk.pad, e.data);
    draft.(stamp := WordBytes(Checksum(Header(draft), e.data).w))
  }

  function Overwrite(region: seq<byte>, at: nat, bytes: seq<byte>): seq<byte>
    requires at + |bytes| <= |region|
  {
    region[..at] + bytes + region[at + |bytes|..]
  }

  function Fresh(size: nat, header: seq<byte>): Wal
    requires |header| == FILE_HEADER
  {
    var region := if size < FILE_HEADER then header[..size] else header + Zero(size - FILE_HEADER);
    Wal(region, FILE_HEADER, 1, 0, 0, 0, 0, [])
  }

  /** A refused append still uses up its LSN. */
  function DoAppend(w: Wal, e: Event): (Wal, Status)
    requires e.Append? && EventFits(e)
  {
    var bytes := Encode(NewRecord(w.nextLsn, e));
    var w1 := w.(nextLsn := (w.nextLsn + 1) % U64);
    if w.offset + |bytes| > |w.region| then (w1, Io)
    else
      (w1.(region := Overwrite(w.region, w.offset, bytes),
           offset := w.offset + |bytes|,
           totalWrites := w.totalWrites + 1,
           totalBytes := w.totalBytes + |bytes|),
       Ok)
  }

  function DoSync(w: Wal, msyncOk: bool, fsyncOk: bool): (Wal, Status) {
    if !msyncOk || !fsyncOk then (w, Io)
    else
      (w.(durable := if w.offset <= |w.region| then w.region[..w.offset] else w.region,
          lastSyncLsn := if w.nextLsn == 0 then U64 - 1 else w.nextLsn - 1,
          totalSyncs := w.totalSyncs + 1),
       Ok)
  }

  function Do(w: Wal, e: Event): (Wal, Status)
    requires EventFits(e)
  {
    match e
    case Append(_, _, _, _, _) => DoAppend(w, e)
    case Sync(msyncOk, fsyncOk) => DoSync(w, msyncOk, fsyncOk)
  }

  /** With the same header fields, payloads that differ only inside 32 consecutive bits are
      stored with different checksums. */
  lemma BurstChangesStamp(lsn: nat, e: Event, e': Event, p: nat)
    requires e.Append? && e'.Append? && EventFits(e) && e' == e.(data := e'.data)
    requires AgreeOutside(e.data, e'.data, p) && e.data != e'.data
    ensures NewRecord(lsn, e).stamp != NewRecord(lsn, e').stamp
  {
    BurstsAreDetected(e.data, e'.data, p);
    var draft := Record(lsn, e.junk.stamp, e.now, e.op, NameField(e.name, e.junk.nameEnd), e.junk.pad, e.data);
    var header := Header(draft);
    assert header == Header(draft.(data := e'.data));
    var front := Crc32(header[..RECORD_HEADER - 4]);
    XorCommutes(front, Crc32(e.data));
    XorCommutes(front, Crc32(e'.data));
    XorInjective(Crc32(e.data), Crc32(e'.data), front);
    var a, b := Checksum(header, e.data).w, Checksum(header, e'.data).w;
    if WordBytes(a) == WordBytes(b) {
      WordBytesInjective(a, b);
    }
  }

  // ---- runs -----------------------------------------------------------------------------

  ghost predicate EventsFit(es: seq<Event>) {
    forall i :: 0 <= i < |es| ==> EventFits(es[i])
  }

  ghost function After(w: Wal, es: seq<Event>): Wal
    requires EventsFit(es)
  {
    if es == [] then w else Do(After(w, es[..|es| - 1]), es[|es| - 1]).0
  }

  /** The records of the appends that succeeded, in order. */
  ghost function Written(w: Wal, es: seq<Event>): seq<Record>
    requires EventsFit(es)
  {
    if es == [] then []
    else
      var last := |es| - 1;
      var before := After(w, es[..last]);
      Written(w, es[..last])
      + if es[last].Append? && Do(before, es[last]).1 == Ok then [NewRecord(before.nextLsn, es[last])] else []
  }

  /** How many of the records carry an LSN at most `lsn`; with rising LSNs, the first ones. */
  ghost function UpTo(rs: seq<Record>, lsn: nat): (k: nat)
    ensures k <= |rs|
  {
    if rs == [] then 0
    else if rs[|rs| - 1].lsn <= lsn then |rs|
    else UpTo(rs[..|rs| - 1], lsn)
  }

  ghost predicate Rising(rs: seq<Record>) {
    forall i, j :: 0 <= i < j < |rs| ==> rs[i].lsn < rs[j].lsn
  }

  lemma {:induction false} UpToIsFilter(rs: seq<Record>, lsn: nat, i: nat)
    requires Rising(rs) && i < |rs|
    ensures i < UpTo(rs, lsn) <==> rs[i].lsn <= lsn
  {
    if i < |rs| - 1 && rs[|rs| - 1].lsn > lsn {
      UpToIsFilter(rs[..|rs| - 1], lsn, i);
    }
  }

  ghost predicate StreamFits(w: Wal, rs: seq<Record>) {
    && AllFit(rs)
    && w.offset == FILE_HEADER + |EncodeAll(rs)|
    && (if |w.region| >= FILE_HEADER then
          w.offset <= |w.region| && w.region[FILE_HEADER..w.offset] == EncodeAll(rs)
        else rs == [])
  }

  ghost predicate CountsFit(w: Wal, rs: seq<Record>) {
    && w.totalBytes == w.offset - FILE_HEADER && w.totalWrites == |rs|
    && 1 <= w.nextLsn < U64 && w.lastSyncLsn < w.nextLsn
    && Rising(rs)
    && (forall i :: 0 <= i < |rs| ==> 1 <= rs[i].lsn < w.nextLsn)
  }

  /** Once something was synced, the durable part ends with the last record the sync covered. */
  ghost predicate DurableFits(w: Wal, rs: seq<Record>)
    requires StreamFits(w, rs)
  {
    && (w.totalSyncs == 0 ==> w.lastSyncLsn == 0 && w.durable == [])
    && (w.totalSyncs > 0 && |w.region| >= FILE_HEADER ==>
          && w.durable <= w.region
          && |w.durable| >= FILE_HEADER
          && w.durable[FILE_HEADER..] == EncodeAll(rs[..UpTo(rs, w.lastSyncLsn)]))
    && (|w.region| < FILE_HEADER ==> w.durable <= w.region)
  }

  ghost predicate Inv(w: Wal, rs: seq<Record>) {
    StreamFits(w, rs) && CountsFit(w, rs) && DurableFits(w, rs)
  }

  lemma OverwriteKeepsBefore(region: seq<byte>, at: nat, bytes: seq<byte>)
    requires at + |bytes| <= |region|
    ensures var region' := Overwrite(region, at, bytes);
            && |region'| == |region| && region'[..at] == region[..at]
            && region'[at..at + |bytes|] == bytes
            && region'[at + |bytes|..] == region[at + |bytes|..]
  {
  }

  lemma StreamGrows(w: Wal, w': Wal, rs: seq<Record>, r: Record)
    requires StreamFits(w, rs) && Fits(r) && |w.region| >= FILE_HEADER
    requires w.offset + |Encode(r)| <= |w.region| == |w'.region|
    requires w'.offset == w.offset + |Encode(r)| && w'.region[..w.offset] == w.region[..w.offset]
    requires w'.region[w.offset..w'.offset] == Encode(r)
    ensures StreamFits(w', rs + [r])
  {
    hide Encode;
    var rs' := rs + [r];
    assert rs'[..|rs|] == rs;
    assert EncodeAll(rs') == EncodeAll(rs) + Encode(r);
    var at := w.offset;
    assert w'.region[FILE_HEADER..at] == w'.region[..at][FILE_HEADER..] == w.region[FILE_HEADER..at];
    assert w'.region[FILE_HEADER..w'.offset] == w'.region[FILE_HEADER..at] + w'.region[at..w'.offset];
  }

  lemma UpToSame(rs: seq<Record>, r: Record, lsn: nat)
    requires lsn < r.lsn
    ensures UpTo(rs + [r], lsn) == UpTo(rs, lsn)
  {
    assert (rs + [r])[..|rs|] == rs;
  }

  lemma DurableStays(w: Wal, w': Wal, rs: seq<Record>, r: Record)
    requires StreamFits(w, rs) && StreamFits(w', rs + [r]) && DurableFits(w, rs)
    requires |w.region| == |w'.region| && w'.region[..w.offset] == w.region[..w.offset] && w.offset <= |w.region|
    requires w'.durable == w.durable && w'.lastSyncLsn == w.lastSyncLsn < r.lsn && w'.totalSyncs == w.totalSyncs
    ensures DurableFits(w', rs + [r])
  {
    hide EncodeAll, UpTo;
    var k := UpTo(rs, w.lastSyncLsn);
    UpToSame(rs, r, w.lastSyncLsn);
    assert (rs + [r])[..k] == rs[..k];
    if w.totalSyncs > 0 && |w.region| >= FILE_HEADER {
      EncodePrefix(rs, k);
      assert w.durable == w.region[..w.offset][..|w.durable|];
      assert w.durable == w'.region[..w.offset][..|w.durable|];
    }
  }

  lemma AppendKeeps(w: Wal, rs: seq<Record>, e: Event)
    requires Inv(w, rs) && e.Append? && EventFits(e) && w.nextLsn < U64 - 1
    ensures var (w', status) := DoAppend(w, e);
            && Inv(w', if status == Ok then rs + [NewRecord(w.nextLsn, e)] else rs)
            && w'.nextLsn == w.nextLsn + 1 && |w'.region| == |w.region|
            && w'.durable == w.durable && w'.lastSyncLsn == w.lastSyncLsn
  {
    hide NewRecord, Encode, Overwrite, EncodeAll, UpTo;
    var (w', status) := DoAppend(w, e);
    var r := NewRecord(w.nextLsn, e);
    NewRecordFits(w.nextLsn, e);
    if status == Ok {
      OverwriteKeepsBefore(w.region, w.offset, Encode(r));
      StreamGrows(w, w', rs, r);
      DurableStays(w, w', rs, r);
    }
  }

  lemma NewRecordFits(lsn: nat, e: Event)
    requires e.Append? && EventFits(e) && lsn < U64
    ensures var r := NewRecord(lsn, e);
            Fits(r) && r.lsn == lsn && r.data == e.data && r.op == e.op && r.timestamp == e.now
            && |Encode(r)| == RECORD_HEADER + |e.data|
  {
  }

  lemma {:induction false} EncodePrefix(rs: seq<Record>, k: nat)
    requires AllFit(rs) && k <= |rs|
    ensures EncodeAll(rs[..k]) <= EncodeAll(rs)
  {
    hide Encode;
    if k < |rs| {
      EncodePrefix(rs[..|rs| - 1], k);
      assert rs[..|rs| - 1][..k] == rs[..k];
    } else {
      assert rs[..k] == rs;
    }
  }

  /** What was made durable is a prefix of what the next sync makes durable. */
  lemma DurableWithin(w: Wal, rs: seq<Record>)
    requires Inv(w, rs)
    ensures w.durable <= DoSync(w, true, true).0.durable
  {
    hide Encode, EncodeAll, UpTo;
    if w.totalSyncs > 0 && |w.region| >= FILE_HEADER {
      EncodePrefix(rs, UpTo(rs, w.lastSyncLsn));
    }
  }

  lemma SyncKeeps(w: Wal, rs: seq<Record>, msyncOk: bool, fsyncOk: bool)
    requires Inv(w, rs)
    ensures var w' := DoSync(w, msyncOk, fsyncOk).0;
            && Inv(w', rs) && w'.nextLsn == w.nextLsn && w'.region == w.region
            && w.durable <= w'.durable && w.lastSyncLsn <= w'.lastSyncLsn
  {
    hide EncodeAll;
    var w' := DoSync(w, msyncOk, fsyncOk).0;
    if msyncOk && fsyncOk {
      DurableWithin(w, rs);
      assert UpTo(rs, w'.lastSyncLsn) == |rs|;
      assert rs[..|rs|] == rs;
    }
  }

  lemma FreshFits(size: nat, header: seq<byte>)
    requires |header| == FILE_HEADER
    ensures Inv(Fresh(size, header), []) && |Fresh(size, header).region| == size
  {
    assert EncodeAll([]) == [];
  }

  lemma EventKeeps(w: Wal, rs: seq<Record>, e: Event)
    requires Inv(w, rs) && EventFits(e) && w.nextLsn < U64 - 1
    ensures var (w', status) := Do(w, e);
            && Inv(w', rs + if e.Append? && status == Ok then [NewRecord(w.nextLsn, e)] else [])
            && w'.nextLsn <= w.nextLsn + 1 && |w'.region| == |w.region|
            && w.durable <= w'.durable && w.lastSyncLsn <= w'.lastSyncLsn
  {
    hide DoAppend, DoSync, NewRecord, Inv;
    assert rs + [] == rs;
    match e {
      case Append(_, _, _, _, _) => AppendKeeps(w, rs, e);
      case Sync(msyncOk, fsyncOk) => SyncKeeps(w, rs, msyncOk, fsyncOk);
    }
  }

  /** Every run from a fresh file keeps the invariant. Fewer events than LSNs, so none wraps. */
  lemma {:induction false} RunKeeps(size: nat, header: seq<byte>, es: seq<Event>)
    requires |header| == FILE_HEADER && EventsFit(es) && |es| < U64 - 2
    ensures var w := After(Fresh(size, header), es);
            Inv(w, Written(Fresh(size, header), es)) && w.nextLsn <= |es| + 1 && |w.region| == size
    decreases |es|
  {
    hide Do, NewRecord, Inv, Fresh;
    var fresh0 := Fresh(size, header);
    if es == [] {
      FreshFits(size, header);
      FreshLsn(size, header);
    } else {
      var last := |es| - 1;
      RunKeeps(size, header, es[..last]);
      EventKeeps(After(fresh0, es[..last]), Written(fresh0, es[..last]), es[last]);
    }
  }

  function Attempts(es: seq<Event>): nat {
    if es == [] then 0 else Attempts(es[..|es| - 1]) + if es[|es| - 1].Append? then 1 else 0
  }

  /** Every append tried, refused or not, uses up one LSN. */
  lemma {:induction false} LsnsCountAttempts(size: nat, header: seq<byte>, es: seq<Event>)
    requires |header| == FILE_HEADER && EventsFit(es) && |es| < U64 - 2
    ensures After(Fresh(size, header), es).nextLsn == 1 + Attempts(es) && Attempts(es) <= |es|
    decreases |es|
  {
    hide NewRecord, Encode, Overwrite;
    if es != [] {
      LsnsCountAttempts(size, header, es[..|es| - 1]);
    }
  }

  lemma FreshLsn(size: nat, header: seq<byte>)
    requires |header| == FILE_HEADER
    ensures Fresh(size, header).nextLsn == 1
  {
  }

  /** The record stream of any run: walking the region from the file header to current_offset
      yields the successful appends in order, provided no payload reaches 2^32 bytes and only
      then; LSNs rise; the byte count is the offset less the file header; and the offset stays
      inside the file exactly when the file has room for its own header. */
  lemma StreamOfAnyRun(size: nat, header: seq<byte>, es: seq<Event>)
    requires |header| == FILE_HEADER && EventsFit(es) && |es| < U64 - 2
    ensures var w, rs := After(Fresh(size, header), es), Written(Fresh(size, header), es);
            && (w.offset <= |w.region| <==> size >= FILE_HEADER)
            && FILE_HEADER <= w.offset
            && (size >= FILE_HEADER ==> (Walk(w.region[FILE_HEADER..w.offset]) == Some(rs) <==> LengthsFit(rs)))
            && (size < FILE_HEADER ==> rs == [])
            && Rising(rs)
            && w.totalBytes == w.offset - FILE_HEADER && w.totalWrites == |rs|
  {
    hide Fresh, After, Written, Walk, DurableFits, EncodeAll, AllFit;
    RunKeeps(size, header, es);
    WalkReadsBack(Written(Fresh(size, header), es));
  }

  /** Whatever a crash leaves beyond the durable part. */
  ghost predicate CrashImage(w: Wal, image: seq<byte>) {
    |image| == |w.region| && w.durable <= image
  }

  /** Crash durability: after any run and a crash, the durable part of the file holds exactly
      the successful appends whose LSN is at most last_sync_lsn, and reads back as them. */
  lemma CrashKeepsSynced(size: nat, header: seq<byte>, es: seq<Event>, image: seq<byte>)
    requires |header| == FILE_HEADER && EventsFit(es) && |es| < U64 - 2
    requires CrashImage(After(Fresh(size, header), es), image)
    ensures var w, rs := After(Fresh(size, header), es), Written(Fresh(size, header), es);
            var synced := rs[..UpTo(rs, w.lastSyncLsn)];
            && (forall i :: 0 <= i < |rs| ==> (i < |synced| <==> rs[i].lsn <= w.lastSyncLsn))
            && (|w.durable| < FILE_HEADER ==> synced == [])
            && (|w.durable| >= FILE_HEADER ==>
                  (Walk(image[FILE_HEADER..|w.durable|]) == Some(synced) <==> LengthsFit(synced)))
  {
    hide Fresh, After, Written, Walk, EncodeAll;
    RunKeeps(size, header, es);
    var w, rs := After(Fresh(size, header), es), Written(Fresh(size, header), es);
    assert AllFit(rs[..UpTo(rs, w.lastSyncLsn)]);
    var k := UpTo(rs, w.lastSyncLsn);
    forall i | 0 <= i < |rs|
      ensures i < k <==> rs[i].lsn <= w.lastSyncLsn
    {
      UpToIsFilter(rs, w.lastSyncLsn, i);
    }
    if |w.durable| >= FILE_HEADER {
      assert image[FILE_HEADER..|w.durable|] == w.durable[FILE_HEADER..];
      WalkReadsBack(rs[..k]);
    } else if |rs| > 0 {
      assert rs[0].lsn > w.lastSyncLsn;
    }
  }

  /** Later events only add to what is durable and to what was written. */
  lemma {:induction false} DurabilityGrows(size: nat, header: seq<byte>, es: seq<Event>, more: seq<Event>)
    requires |header| == FILE_HEADER && EventsFit(es + more) && |es + more| < U64 - 2
    ensures EventsFit(es)
    ensures var w, w' := After(Fresh(size, header), es), After(Fresh(size, header), es + more);
            w.durable <= w'.durable && w.lastSyncLsn <= w'.lastSyncLsn
    ensures Written(Fresh(size, header), es) <= Written(Fresh(size, header), es + more)
    decreases |more|
  {
    hide Do, NewRecord, Inv, Fresh;
    assert forall i :: 0 <= i < |es| ==> es[i] == (es + more)[i];
    if more == [] {
      assert es + more == es;
    } else {
      var last := |more| - 1;
      var all := es + more;
      assert all[..|all| - 1] == es + more[..last];
      DurabilityGrows(size, header, es, more[..last]);
      RunKeeps(size, header, es + more[..last]);
      EventKeeps(After(Fresh(size, header), es + more[..last]), Written(Fresh(size, header), es + more[..last]),
                 all[|all| - 1]);
    }
  }
}
