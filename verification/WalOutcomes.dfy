/** What appends and syncs of src/storage/wal_engine.c come to over any run: which appends
    succeed, what each record says, and what a sync leaves on disk. */
module WalOutcomes {
  import opened Base
  import opened Crc
  import opened CrcTheorems
  import opened WalRecord
  import opened WalLog

  // ---- names ------------------------------------------------------------------------------

  /** As much of a name as the field takes. */
  function Kept(name: seq<byte>): seq<byte> {
    if |name| < NAME_FIELD then name else name[..NAME_FIELD - 1]
  }

  /** A C string. */
  ghost predicate NoZero(name: seq<byte>) {
    forall k :: 0 <= k < |name| ==> name[k] != 0
  }

  /** The field starts with the name, as much as fits, then zeros up to the last byte. */
  ghost predicate Names(field: seq<byte>, name: seq<byte>) {
    && |field| == NAME_FIELD && Kept(name) <= field
    && forall k :: |Kept(name)| <= k < NAME_FIELD - 1 ==> field[k] == 0
  }

  lemma FieldNames(name: seq<byte>, end: byte)
    ensures Names(NameField(name, end), name) && NameField(name, end)[NAME_FIELD - 1] == end
  {
  }

  /** The name ends at the field's first zero. */
  lemma NameEnds(field: seq<byte>, name: seq<byte>)
    requires Names(field, name) && NoZero(name)
    ensures forall k :: 0 <= k < NAME_FIELD - 1 ==> (field[k] != 0 <==> k < |Kept(name)|)
  {
    assert forall k :: 0 <= k < |Kept(name)| ==> field[k] == Kept(name)[k] && Kept(name)[k] == name[k];
  }

  lemma NamedOnce(field: seq<byte>, a: seq<byte>, b: seq<byte>)
    requires Names(field, a) && Names(field, b) && NoZero(a) && NoZero(b)
    ensures Kept(a) == Kept(b)
  {
    NameEnds(field, a);
    NameEnds(field, b);
    var end := if |Kept(a)| < |Kept(b)| then |Kept(a)| else |Kept(b)|;
    assert end < NAME_FIELD - 1 ==> (field[end] != 0 <==> end < |Kept(a)|);
  }

  /** Two names give one field if and only if they agree on their first 127 bytes. */
  lemma FieldsAgreeExactly(a: seq<byte>, b: seq<byte>, end: byte)
    requires NoZero(a) && NoZero(b)
    ensures NameField(a, end) == NameField(b, end) <==> Kept(a) == Kept(b)
  {
    FieldNames(a, end);
    FieldNames(b, end);
    if NameField(a, end) == NameField(b, end) {
      NamedOnce(NameField(a, end), a, b);
    }
  }

  // ---- records ----------------------------------------------------------------------------

  /** The record says what was appended, under this LSN. */
  ghost predicate Records(r: Record, e: Event, lsn: nat)
    requires e.Append?
  {
    r.lsn == lsn && r.op == e.op && r.timestamp == e.now && r.data == e.data && Names(r.name, e.name)
  }

  lemma NewRecordRecords(lsn: nat, e: Event)
    requires e.Append? && EventFits(e)
    ensures Records(NewRecord(lsn, e), e, lsn)
  {
    FieldNames(e.name, e.junk.nameEnd);
  }

  /** The places of the appends that returned Ok. */
  ghost function Succeeded(w: Wal, es: seq<Event>): seq<nat>
    requires EventsFit(es)
  {
    if es == [] then []
    else
      var last := |es| - 1;
      Succeeded(w, es[..last])
      + if es[last].Append? && Do(After(w, es[..last]), es[last]).1 == Ok then [last] else []
  }

  ghost predicate RecordedAt(rs: seq<Record>, at: seq<nat>, es: seq<Event>, i: nat)
    requires i < |rs| == |at|
  {
    at[i] < |es| && es[at[i]].Append? && Records(rs[i], es[at[i]], Attempts(es[..at[i] + 1]))
  }

  ghost predicate AreRecorded(rs: seq<Record>, at: seq<nat>, es: seq<Event>) {
    && |rs| == |at|
    && (forall i :: 0 <= i < |at| ==> RecordedAt(rs, at, es, i))
    && (forall i, j :: 0 <= i < j < |at| ==> at[i] < at[j])
  }

  lemma RecordedLater(rs: seq<Record>, at: seq<nat>, es: seq<Event>, e: Event)
    requires AreRecorded(rs, at, es)
    ensures AreRecorded(rs, at, es + [e])
  {
    forall i | 0 <= i < |at|
      ensures RecordedAt(rs, at, es + [e], i)
    {
      assert RecordedAt(rs, at, es, i);
      assert (es + [e])[..at[i] + 1] == es[..at[i] + 1];
    }
  }

  lemma OneMoreRecord(rs: seq<Record>, at: seq<nat>, es: seq<Event>, e: Event, r: Record)
    requires AreRecorded(rs, at, es) && e.Append? && Records(r, e, 1 + Attempts(es))
    ensures AreRecorded(rs + [r], at + [|es|], es + [e])
  {
    hide Records, Attempts, RecordedAt;
    RecordedLater(rs, at, es, e);
    var rs', at', es' := rs + [r], at + [|es|], es + [e];
    forall i | 0 <= i < |at'|
      ensures RecordedAt(rs', at', es', i) && (i < |at| ==> at'[i] < |es|)
    {
      if i < |at| {
        assert RecordedAt(rs, at, es', i) && RecordedAt(rs, at, es, i);
        SameRecord(rs, at, rs', at', es', i);
        PlaceIsInside(rs, at, es, i);
      } else {
        LastRecord(rs', at', es', r, e);
      }
    }
  }

  lemma SameRecord(rs: seq<Record>, at: seq<nat>, rs': seq<Record>, at': seq<nat>, es: seq<Event>, i: nat)
    requires i < |rs| == |at| <= |rs'| == |at'| && rs'[i] == rs[i] && at'[i] == at[i] && RecordedAt(rs, at, es, i)
    ensures RecordedAt(rs', at', es, i)
  {
  }

  lemma PlaceIsInside(rs: seq<Record>, at: seq<nat>, es: seq<Event>, i: nat)
    requires i < |rs| == |at| && RecordedAt(rs, at, es, i)
    ensures at[i] < |es|
  {
  }

  lemma LastRecord(rs: seq<Record>, at: seq<nat>, es: seq<Event>, r: Record, e: Event)
    requires es != [] && |rs| == |at| > 0 && rs[|rs| - 1] == r && at[|at| - 1] == |es| - 1 && es[|es| - 1] == e
    requires e.Append? && Records(r, e, 1 + Attempts(es[..|es| - 1]))
    ensures RecordedAt(rs, at, es, |rs| - 1)
  {
    hide Records;
    assert es[..|es|] == es;
    OneMoreAttempt(es);
  }

  /** After any run the records are exactly the appends that succeeded, in order, each with its
      append's name, kind, time and payload, and with the number of appends tried as its LSN. */
  lemma {:induction false} RecordsAreAppends(size: nat, header: seq<byte>, es: seq<Event>)
    requires |header| == FILE_HEADER && EventsFit(es) && |es| < U64 - 2
    ensures AreRecorded(Written(Fresh(size, header), es), Succeeded(Fresh(size, header), es), es)
    decreases |es|
  {
    hide Do, NewRecord, Fresh, Records, Attempts, AreRecorded;
    var w := Fresh(size, header);
    if es == [] {
      NoRecords();
    } else {
      var last := |es| - 1;
      var before, e := es[..last], es[last];
      RecordsAreAppends(size, header, before);
      assert es == before + [e];
      RecordedLater(Written(w, before), Succeeded(w, before), before, e);
      if e.Append? {
        LsnsCountAttempts(size, header, before);
        NewRecordRecords(1 + Attempts(before), e);
        OneMoreRecord(Written(w, before), Succeeded(w, before), before, e, NewRecord(1 + Attempts(before), e));
      }
      assert Written(w, before) + [] == Written(w, before) && Succeeded(w, before) + [] == Succeeded(w, before);
    }
  }

  lemma NoRecords()
    ensures AreRecorded([], [], [])
  {
  }

  /** Nothing but the appends that returned Ok, and all of them. */
  lemma {:induction false} SucceededExactly(w: Wal, es: seq<Event>, k: nat)
    requires EventsFit(es)
    ensures k in Succeeded(w, es)
            <==> k < |es| && es[k].Append? && Do(After(w, es[..k]), es[k]).1 == Ok
    decreases |es|
  {
    hide Do, After;
    if es != [] {
      var last := |es| - 1;
      SucceededExactly(w, es[..last], k);
      assert k < last ==> es[..last][..k] == es[..k];
    }
  }

  lemma OneMoreAttempt(es: seq<Event>)
    requires es != [] && es[|es| - 1].Append?
    ensures Attempts(es) == 1 + Attempts(es[..|es| - 1])
  {
  }

  // ---- which appends succeed --------------------------------------------------------------

  /** The bytes that records take. */
  function Taken(rs: seq<Record>): nat {
    if rs == [] then 0 else Taken(rs[..|rs| - 1]) + RECORD_HEADER + |rs[|rs| - 1].data|
  }

  lemma {:induction false} TakenIsLength(rs: seq<Record>)
    requires AllFit(rs)
    ensures |EncodeAll(rs)| == Taken(rs)
  {
    if rs != [] {
      TakenIsLength(rs[..|rs| - 1]);
    }
  }

  lemma RecordSize(lsn: nat, e: Event)
    requires e.Append? && EventFits(e)
    ensures |Encode(NewRecord(lsn, e))| == RECORD_HEADER + |e.data|
  {
    hide Header, Checksum, NameField;
  }

  /** An append succeeds if and only if its record fits behind the offset. */
  lemma AppendOutcome(w: Wal, e: Event)
    requires e.Append? && EventFits(e)
    ensures var (w', status) := Do(w, e); var bytes := RECORD_HEADER + |e.data|;
            && (status == Ok <==> w.offset + bytes <= |w.region|)
            && (status != Ok ==> status == Io)
            && w' == w.(region := w'.region, offset := w'.offset, nextLsn := w'.nextLsn,
                        totalWrites := w'.totalWrites, totalBytes := w'.totalBytes)
            && w'.nextLsn == (w.nextLsn + 1) % U64
            && w'.offset == w.offset + (if status == Ok then bytes else 0)
            && w'.totalWrites == w.totalWrites + (if status == Ok then 1 else 0)
            && w'.totalBytes == w.totalBytes + (if status == Ok then bytes else 0)
            && (status != Ok ==> w'.region == w.region)
  {
    hide Encode, NewRecord, Overwrite;
    RecordSize(w.nextLsn, e);
  }

  /** After any run an append succeeds if and only if its record fits in the file behind the file
      header and all the records so far. */
  lemma AppendsFitExactly(size: nat, header: seq<byte>, es: seq<Event>, e: Event)
    requires |header| == FILE_HEADER && EventsFit(es) && |es| < U64 - 2 && e.Append? && EventFits(e)
    ensures Do(After(Fresh(size, header), es), e).1 == Ok
            <==> FILE_HEADER + Taken(Written(Fresh(size, header), es)) + RECORD_HEADER + |e.data| <= size
  {
    hide Fresh, After, Written, EncodeAll, DurableFits, Do, Taken, AllFit;
    RunKeeps(size, header, es);
    TakenIsLength(Written(Fresh(size, header), es));
    AppendOutcome(After(Fresh(size, header), es), e);
  }

  /** The rest of the file: its header as created, and zeros past the records. */
  lemma {:induction false} NothingElseWritten(size: nat, header: seq<byte>, es: seq<Event>)
    requires |header| == FILE_HEADER <= size && EventsFit(es) && |es| < U64 - 2
    ensures var w := After(Fresh(size, header), es);
            && FILE_HEADER <= w.offset <= |w.region| == size
            && w.region[..FILE_HEADER] == header
            && w.region[w.offset..] == Zero(size - w.offset)
    decreases |es|
  {
    hide Written, Walk, AllFit, Do, Inv, NewRecord, EncodeAll;
    RunKeeps(size, header, es);
    RoomFor(size, header, es);
    if es != [] {
      var last := |es| - 1;
      NothingElseWritten(size, header, es[..last]);
      EventLeavesRest(After(Fresh(size, header), es[..last]), es[last]);
    }
  }

  lemma RoomFor(size: nat, header: seq<byte>, es: seq<Event>)
    requires |header| == FILE_HEADER <= size && EventsFit(es) && |es| < U64 - 2
    ensures var w := After(Fresh(size, header), es); FILE_HEADER <= w.offset <= |w.region| == size
  {
    hide Written, Walk, Do, DurableFits, CountsFit, After, Fresh;
    RunKeeps(size, header, es);
  }

  lemma EventLeavesRest(w: Wal, e: Event)
    requires EventFits(e) && FILE_HEADER <= w.offset <= |w.region|
    requires w.region[w.offset..] == Zero(|w.region| - w.offset)
    ensures var w' := Do(w, e).0;
            && w.offset <= w'.offset && |w'.region| == |w.region| && w'.region[..FILE_HEADER] == w.region[..FILE_HEADER]
            && (w'.offset <= |w.region| ==> w'.region[w'.offset..] == Zero(|w.region| - w'.offset))
  {
    hide Encode, Header, Checksum, NameField;
    if e.Append? {
      var bytes := Encode(NewRecord(w.nextLsn, e));
      var end := w.offset + |bytes|;
      if end <= |w.region| {
        assert Overwrite(w.region, w.offset, bytes)[end..] == w.region[w.offset..][|bytes|..];
      }
    }
  }

  // ---- syncs ------------------------------------------------------------------------------

  /** The syncs whose two calls both succeeded. */
  function Syncs(es: seq<Event>): nat {
    if es == [] then 0
    else
      var last := es[|es| - 1];
      Syncs(es[..|es| - 1]) + if last.Sync? && last.msyncOk && last.fsyncOk then 1 else 0
  }

  lemma {:induction false} SyncsAreCounted(size: nat, header: seq<byte>, es: seq<Event>)
    requires |header| == FILE_HEADER && EventsFit(es)
    ensures After(Fresh(size, header), es).totalSyncs == Syncs(es)
    decreases |es|
  {
    hide NewRecord, Encode, Overwrite;
    if es != [] {
      SyncsAreCounted(size, header, es[..|es| - 1]);
    }
  }

  /** A sync either of whose calls fails returns Io and changes nothing. */
  lemma FailedSyncKeeps(w: Wal, msyncOk: bool, fsyncOk: bool)
    ensures Do(w, Sync(msyncOk, fsyncOk)).1 == (if msyncOk && fsyncOk then Ok else Io)
    ensures !(msyncOk && fsyncOk) ==> Do(w, Sync(msyncOk, fsyncOk)).0 == w
  {
  }

  /** A sync that succeeds, after any run of a file with room for its header, puts on disk all
      that was written: whatever a crash does to the rest, the file walks back to every record
      so far (if and only if the lengths fit 32 bits), and last_sync_lsn covers every append. */
  lemma SyncMakesDurable(size: nat, header: seq<byte>, es: seq<Event>, image: seq<byte>)
    requires |header| == FILE_HEADER <= size && EventsFit(es) && |es| < U64 - 2
    requires CrashImage(Do(After(Fresh(size, header), es), Sync(true, true)).0, image)
    ensures var w, rs := After(Fresh(size, header), es), Written(Fresh(size, header), es);
            var w' := Do(w, Sync(true, true)).0;
            && FILE_HEADER <= w.offset <= |w.region| && w'.durable == w.region[..w.offset]
            && |image| == |w.region|
            && (Walk(image[FILE_HEADER..w.offset]) == Some(rs) <==> LengthsFit(rs))
            && w'.lastSyncLsn == Attempts(es) && w'.totalSyncs == Syncs(es) + 1
            && (forall i :: 0 <= i < |rs| ==> rs[i].lsn <= w'.lastSyncLsn)
            && w' == w.(durable := w'.durable, lastSyncLsn := w'.lastSyncLsn, totalSyncs := w'.totalSyncs)
  {
    hide Fresh, After, Written, EncodeAll, Walk, AllFit, Attempts, Syncs;
    RunKeeps(size, header, es);
    LsnsCountAttempts(size, header, es);
    SyncsAreCounted(size, header, es);
    var w, rs := After(Fresh(size, header), es), Written(Fresh(size, header), es);
    assert image[FILE_HEADER..w.offset] == w.region[FILE_HEADER..w.offset];
    WalkReadsBack(rs);
  }

  // ---- what the checksum covers -----------------------------------------------------------

  /** The header that the checksum is computed over, with the field as it was before. */
  function Draft(lsn: nat, e: Event): (h: seq<byte>)
    requires e.Append? && EventFits(e)
    ensures |h| == RECORD_HEADER
  {
    Header(Record(lsn, e.junk.stamp, e.now, e.op, NameField(e.name, e.junk.nameEnd), e.junk.pad, e.data))
  }

  lemma StampIsChecksum(lsn: nat, e: Event)
    requires e.Append? && EventFits(e)
    ensures NewRecord(lsn, e).stamp == WordBytes(Checksum(Draft(lsn, e), e.data).w)
  {
  }

  /** Two appends of one payload whose headers differ, within their first 156 bytes, only inside
      32 consecutive bits are stored with different checksums; the last four bytes, the padding,
      do not enter. */
  lemma HeaderBurstChangesStamp(lsn: nat, lsn': nat, e: Event, e': Event, p: nat)
    requires e.Append? && e'.Append? && EventFits(e) && EventFits(e') && e.data == e'.data
    requires var a, b := Draft(lsn, e)[..RECORD_HEADER - 4], Draft(lsn', e')[..RECORD_HEADER - 4];
             AgreeOutside(a, b, p)
    ensures NewRecord(lsn, e).stamp == NewRecord(lsn', e').stamp
            <==> Draft(lsn, e)[..RECORD_HEADER - 4] == Draft(lsn', e')[..RECORD_HEADER - 4]
  {
    hide NewRecord, Draft, Crc32;
    var a, b := Draft(lsn, e)[..RECORD_HEADER - 4], Draft(lsn', e')[..RECORD_HEADER - 4];
    StampIsChecksum(lsn, e);
    StampIsChecksum(lsn', e');
    if a != b {
      BurstsAreDetected(a, b, p);
      XorInjective(Crc32(a), Crc32(b), Crc32(e.data));
      var x, y := Checksum(Draft(lsn, e), e.data).w, Checksum(Draft(lsn', e'), e'.data).w;
      if WordBytes(x) == WordBytes(y) {
        WordBytesInjective(x, y);
      }
    }
  }
}
