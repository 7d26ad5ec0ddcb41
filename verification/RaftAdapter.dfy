/** The Raft adapter of src/storage/storage_manager.c over a chosen backend: what its keys hold
    after any history of saves, and the adapter itself over the manager and the store. */
module RaftAdapter {
  import opened Base
  import opened AdapterPaths
  import MF = MockFiles
  import MK = MockStacks
  import SM = StorageManager

  /** An append_log, save_state or save_snapshot; `fault` and `memory` as for the store. */
  datatype Save = Save(key: Key, data: seq<byte>, fault: bool, memory: bool)

  /** One device over one store: how many files it takes and how large. */
  datatype Device = Device(prefix: string, maxFiles: nat, maxFileSize: nat)

  function SaveOp(d: Device, s: Save): MF.Op {
    MF.OpWrite(Path(d.prefix, s.key), 0, s.data, s.fault, s.memory)
  }

  /** Every index is a uint64_t. */
  ghost predicate AllIn64Bits(saves: seq<Save>) {
    forall i :: 0 <= i < |saves| ==> In64Bits(saves[i].key)
  }

  lemma PathsAreShort(d: Device, key: Key)
    ensures |Path(d.prefix, key)| < MF.MAX_PATH_LEN
  {
  }

  /** The store after a history of saves to an empty store. */
  ghost function StoreAfter(d: Device, saves: seq<Save>): (s: MF.Store)
    ensures MF.Inv(s) && s.maxFiles == d.maxFiles && s.maxFileSize == d.maxFileSize
    decreases |saves|
  {
    if saves == [] then MF.Empty(d.maxFiles, d.maxFileSize)
    else
      var last := |saves| - 1;
      var before := StoreAfter(d, saves[..last]);
      PathsAreShort(d, saves[last].key);
      MF.DoRefines(before, SaveOp(d, saves[last]));
      MF.Do(before, SaveOp(d, saves[last])).store
  }

  ghost function Load(d: Device, saves: seq<Save>, key: Key, size: nat): (Status, seq<byte>) {
    MF.Read(StoreAfter(d, saves), Path(d.prefix, key), 0, size, false)
  }

  // ---- results, from the history alone --------------------------------------------------

  /** The result of the last save of a history. */
  ghost function Result(d: Device, saves: seq<Save>): Status
    requires saves != []
    decreases |saves|, 0
  {
    var last, rest := saves[|saves| - 1], saves[..|saves| - 1];
    MF.Verdict(ShapeOf(d, rest, Path(d.prefix, last.key)), |Names(d, rest)|, d.maxFiles, d.maxFileSize,
               last.data, |last.data|, last.fault, last.memory)
  }

  /** How long the file of this name is, and how much is allocated for it. */
  ghost function ShapeOf(d: Device, saves: seq<Save>, name: string): Option<MF.Shape>
    decreases |saves|, 1
  {
    if saves == [] then None
    else
      var last, rest := saves[|saves| - 1], saves[..|saves| - 1];
      if Path(d.prefix, last.key) == name && MF.LeavesFile(Result(d, saves))
      then Some(MF.Grown(ShapeOf(d, rest, name), |last.data|))
      else ShapeOf(d, rest, name)
  }

  /** The names of the saves that left a file. */
  ghost function Names(d: Device, saves: seq<Save>): set<string>
    decreases |saves|, 1
  {
    if saves == [] then {}
    else
      Names(d, saves[..|saves| - 1])
      + if MF.LeavesFile(Result(d, saves)) then {Path(d.prefix, saves[|saves| - 1].key)} else {}
  }

  /** The longest save under this name that left a file. */
  ghost function Longest(d: Device, saves: seq<Save>, name: string): nat
    decreases |saves|
  {
    if saves == [] then 0
    else
      var last, longest := saves[|saves| - 1], Longest(d, saves[..|saves| - 1], name);
      if Path(d.prefix, last.key) == name && MF.LeavesFile(Result(d, saves)) && |last.data| > longest
      then |last.data| else longest
  }

  lemma {:induction false} ShapesOfNames(d: Device, saves: seq<Save>, name: string)
    ensures ShapeOf(d, saves, name).Some? <==> name in Names(d, saves)
    ensures Longest(d, saves, name) == if name in Names(d, saves) then ShapeOf(d, saves, name).value.size else 0
    decreases |saves|
  {
    hide Result, Path;
    if saves != [] {
      ShapesOfNames(d, saves[..|saves| - 1], name);
    }
  }

  /** With memory and no fault, a save succeeds if and only if its name has a file or fewer than
      the limit do, and no save under the name that left a file, nor this one, is too long. */
  lemma SucceedsExactly(d: Device, saves: seq<Save>)
    requires saves != []
    requires var last := saves[|saves| - 1]; last.data != [] && !last.fault && last.memory
    ensures var last, rest := saves[|saves| - 1], saves[..|saves| - 1]; var name := Path(d.prefix, last.key);
            Result(d, saves) == Ok
            <==> (name in Names(d, rest) || |Names(d, rest)| < d.maxFiles)
                 && Longest(d, rest, name) <= d.maxFileSize && |last.data| <= d.maxFileSize
  {
    hide Path;
    ShapesOfNames(d, saves[..|saves| - 1], Path(d.prefix, saves[|saves| - 1].key));
  }

  lemma {:induction false} LongestGrows(d: Device, saves: seq<Save>, more: seq<Save>, name: string)
    ensures Longest(d, saves, name) <= Longest(d, saves + more, name)
    decreases |more|
  {
    hide Result, Path;
    if more == [] {
      assert saves + more == saves;
    } else {
      LongestGrows(d, saves, more[..|more| - 1], name);
      assert (saves + more)[..|saves + more| - 1] == saves + more[..|more| - 1];
    }
  }

  lemma SizeDecides(d: Device, saves: seq<Save>)
    requires saves != []
    ensures var name := Path(d.prefix, saves[|saves| - 1].key);
            && (Result(d, saves) == NoSpace ==> Longest(d, saves, name) > d.maxFileSize)
            && (Longest(d, saves[..|saves| - 1], name) > d.maxFileSize ==> Result(d, saves) != Ok)
  {
    hide Path;
    var name := Path(d.prefix, saves[|saves| - 1].key);
    ShapesOfNames(d, saves[..|saves| - 1], name);
    ShapesOfNames(d, saves, name);
  }

  /** A name once refused for size can never be saved under again, with however few bytes. */
  lemma NeverSavedAgain(d: Device, saves: seq<Save>, more: seq<Save>)
    requires saves != [] && more != [] && Result(d, saves) == NoSpace
    requires Path(d.prefix, saves[|saves| - 1].key) == Path(d.prefix, more[|more| - 1].key)
    ensures Result(d, saves + more) != Ok
  {
    hide Path, Result, Longest;
    var rest, name := more[..|more| - 1], Path(d.prefix, saves[|saves| - 1].key);
    assert (saves + more)[..|saves + more| - 1] == saves + rest;
    SizeDecides(d, saves);
    LongestGrows(d, saves, rest, name);
    SizeDecides(d, saves + more);
  }

  lemma EqualSets(d: Device, saves: seq<Save>, files: seq<MF.File>)
    requires forall p :: MF.ShapeIn(files, p) == ShapeOf(d, saves, p)
    requires forall i, j :: 0 <= i < j < |files| ==> files[i].path != files[j].path
    ensures |Names(d, saves)| == |files|
  {
    hide ShapeOf, Names;
    forall p
      ensures p in Names(d, saves) <==> p in MF.Paths(files)
    {
      ShapesOfNames(d, saves, p);
      MF.FindFinds(files, p);
      assert MF.ShapeIn(files, p) == ShapeOf(d, saves, p);
    }
    MF.PathsCount(files);
    assert Names(d, saves) == MF.Paths(files);
  }

  /** The store agrees with the history on every file's shape. */
  lemma {:induction false} StoreFollowsHistory(d: Device, saves: seq<Save>)
    ensures forall p :: MF.ShapeIn(StoreAfter(d, saves).files, p) == ShapeOf(d, saves, p)
    ensures |Names(d, saves)| == |StoreAfter(d, saves).files|
    decreases |saves|
  {
    hide MF.Do, MF.ShapeIn, MF.Grown, MF.Verdict, Path;
    if saves == [] {
      NoShapes(d);
    } else {
      var rest, op := saves[..|saves| - 1], SaveOp(d, saves[|saves| - 1]);
      StoreFollowsHistory(d, rest);
      PathsAreShort(d, saves[|saves| - 1].key);
      forall p
        ensures MF.ShapeIn(StoreAfter(d, saves).files, p) == ShapeOf(d, saves, p)
      {
        MF.ShapesFollow(StoreAfter(d, rest), op, p);
      }
    }
    EqualSets(d, saves, StoreAfter(d, saves).files);
  }

  lemma NoShapes(d: Device)
    ensures forall p :: MF.ShapeIn(StoreAfter(d, []).files, p) == ShapeOf(d, [], p)
  {
  }

  /** What the store returns is what the history foretells. */
  lemma StatusIsResult(d: Device, saves: seq<Save>)
    requires saves != []
    ensures MF.Do(StoreAfter(d, saves[..|saves| - 1]), SaveOp(d, saves[|saves| - 1])).status == Result(d, saves)
  {
    hide MF.Do, MF.ShapeIn, MF.Verdict, Path, ShapeOf, Names;
    var rest, op := saves[..|saves| - 1], SaveOp(d, saves[|saves| - 1]);
    PathsAreShort(d, saves[|saves| - 1].key);
    StoreFollowsHistory(d, rest);
    MF.ShapesFollow(StoreAfter(d, rest), op, op.path);
  }

  lemma SaveExtends(d: Device, saves: seq<Save>, save: Save)
    ensures var more := saves + [save];
            (StoreAfter(d, more), Result(d, more))
            == MF.Write(StoreAfter(d, saves), Path(d.prefix, save.key), 0, save.data, save.fault, save.memory)
  {
    hide MF.Write, Path, Result;
    assert (saves + [save])[..|saves|] == saves;
    StatusIsResult(d, saves + [save]);
  }

  // ---- what a key holds, from the history alone -----------------------------------------

  /** Byte `i` of the latest successful save under the name of `key` long enough to reach it. */
  ghost function LatestByte(d: Device, saves: seq<Save>, key: Key, i: nat): Option<byte>
    decreases |saves|
  {
    if saves == [] then None
    else
      var last := saves[|saves| - 1];
      if SameName(d.prefix, last.key, key) && Result(d, saves) == Ok && i < |last.data| then Some(last.data[i])
      else LatestByte(d, saves[..|saves| - 1], key, i)
  }

  /** Some save under the name of `key` reached `i`: one that succeeded or was refused for size. */
  ghost predicate Reached(d: Device, saves: seq<Save>, key: Key, i: nat)
    decreases |saves|
  {
    saves != [] &&
    var last := saves[|saves| - 1];
    ((SameName(d.prefix, last.key, key) && MF.LeavesFile(Result(d, saves)) && i < |last.data|)
     || Reached(d, saves[..|saves| - 1], key, i))
  }

  function OrZero(b: Option<byte>): byte {
    if b.Some? then b.value else 0
  }

  ghost function Map(d: Device, saves: seq<Save>): MF.Contents {
    MF.ToMap(StoreAfter(d, saves).files)
  }

  ghost function Held(d: Device, saves: seq<Save>, key: Key): seq<byte> {
    MF.Get(Map(d, saves), Path(d.prefix, key))
  }

  ghost predicate NoEmptyFile(d: Device, saves: seq<Save>, key: Key) {
    Path(d.prefix, key) in Map(d, saves) ==> Held(d, saves, key) != []
  }

  ghost predicate HoldsAt(d: Device, saves: seq<Save>, key: Key, i: nat) {
    var held := Held(d, saves, key);
    && (i < |held| <==> Reached(d, saves, key, i))
    && (i < |held| ==> held[i] == OrZero(LatestByte(d, saves, key, i)))
  }

  /** What a save of `data` with this result makes of the bytes under its name. */
  function Overlaid(bytes: seq<byte>, data: seq<byte>, result: Status): seq<byte> {
    if !MF.LeavesFile(result) then bytes
    else
      var padded := MF.Padded(bytes, |data|);
      if result == Ok then MF.Spliced(padded, 0, data) else padded
  }

  lemma SaveAllowed(d: Device, saves: seq<Save>)
    requires saves != []
    ensures var last := saves[|saves| - 1]; var before := Map(d, saves[..|saves| - 1]);
            MF.MapAllows(before, d.maxFiles, d.maxFileSize, SaveOp(d, last), Result(d, saves), [], Map(d, saves))
  {
    hide MF.Do, MF.ToMap, MF.Write, Path, MF.MapAllows, Result;
    StatusIsResult(d, saves);
    var last := saves[|saves| - 1];
    PathsAreShort(d, last.key);
    var before := StoreAfter(d, saves[..|saves| - 1]);
    MF.DoRefines(before, SaveOp(d, last));
    MF.WriteRefused(before, SaveOp(d, last));
  }

  /** How one more save changes what `key` holds: by being laid over it, or not at all. */
  lemma SaveChanges(d: Device, saves: seq<Save>, key: Key)
    requires saves != [] && AllIn64Bits(saves) && In64Bits(key)
    requires NoEmptyFile(d, saves[..|saves| - 1], key)
    ensures var last := saves[|saves| - 1]; var was := Held(d, saves[..|saves| - 1], key);
            && NoEmptyFile(d, saves, key)
            && Held(d, saves, key)
               == if SameName(d.prefix, last.key, key) then Overlaid(was, last.data, Result(d, saves)) else was
  {
    hide Map, Path, Result, SameName;
    SaveAllowed(d, saves);
    PathsCollideExactly(d.prefix, saves[|saves| - 1].key, key);
  }

  lemma OverlaidAt(bytes: seq<byte>, data: seq<byte>, result: Status, i: nat)
    ensures var laid := Overlaid(bytes, data, result);
            && (i < |laid| <==> i < |bytes| || (MF.LeavesFile(result) && i < |data|))
            && (i < |laid| ==> laid[i] == if result == Ok && i < |data| then data[i]
                                          else if i < |bytes| then bytes[i] else 0)
  {
  }

  lemma ByteAfterSave(d: Device, saves: seq<Save>, key: Key, i: nat)
    requires saves != [] && AllIn64Bits(saves) && In64Bits(key)
    requires NoEmptyFile(d, saves[..|saves| - 1], key) && HoldsAt(d, saves[..|saves| - 1], key, i)
    ensures HoldsAt(d, saves, key, i)
  {
    hide Held, Result, SameName, NoEmptyFile, Overlaid;
    var last, rest := saves[|saves| - 1], saves[..|saves| - 1];
    SaveChanges(d, saves, key);
    OverlaidAt(Held(d, rest, key), last.data, Result(d, saves), i);
    LatestIsReached(d, rest, key, i);
  }

  /** After any history every key holds, at every byte, what the history says. */
  lemma {:induction false} KeyHoldsHistory(d: Device, saves: seq<Save>, key: Key, i: nat)
    requires AllIn64Bits(saves) && In64Bits(key)
    ensures NoEmptyFile(d, saves, key) && HoldsAt(d, saves, key, i)
    decreases |saves|
  {
    hide HoldsAt, NoEmptyFile;
    if saves == [] {
      NothingHeld(d, key, i);
    } else {
      KeyHoldsHistory(d, saves[..|saves| - 1], key, i);
      SaveChanges(d, saves, key);
      ByteAfterSave(d, saves, key, i);
    }
  }

  lemma NothingHeld(d: Device, key: Key, i: nat)
    ensures NoEmptyFile(d, [], key) && HoldsAt(d, [], key, i)
  {
  }

  lemma {:induction false} LatestIsReached(d: Device, saves: seq<Save>, key: Key, i: nat)
    ensures LatestByte(d, saves, key, i).Some? ==> Reached(d, saves, key, i)
    decreases |saves|
  {
    hide Result, SameName;
    if saves != [] {
      LatestIsReached(d, saves[..|saves| - 1], key, i);
    }
  }

  lemma LoadFromHeld(d: Device, saves: seq<Save>, key: Key, size: nat)
    requires NoEmptyFile(d, saves, key) && size > 0
    ensures Load(d, saves, key, size)
            == var held := Held(d, saves, key); if held == [] then (NotFound, []) else (Ok, MF.Window(held, 0, size))
  {
    hide MF.Find, Path, StoreAfter, MF.ToMap, MF.Window;
    MF.Lookup(StoreAfter(d, saves), Path(d.prefix, key));
  }

  /** What a load shows at byte `i`. */
  function Shown(held: seq<byte>, i: nat): byte {
    if i < |held| then held[i] else 0
  }

  lemma WindowShows(held: seq<byte>, size: nat, i: nat)
    requires i < size
    ensures |MF.Window(held, 0, size)| == size && MF.Window(held, 0, size)[i] == Shown(held, i)
  {
  }

  /** The three layers behave as one map from keys to bytes. After any history of saves of any
      results, a load of a key gives, byte for byte, the latest successful save under that name
      that was long enough to reach the byte, and zero where there was none; it finds nothing
      if and only if no save under that name ever got as far as its file. */
  lemma LoadIsLatestSave(d: Device, saves: seq<Save>, key: Key, size: nat)
    requires AllIn64Bits(saves) && In64Bits(key) && size > 0
    ensures Load(d, saves, key, size)
            == if Reached(d, saves, key, 0)
               then (Ok, seq(size, i requires 0 <= i < size => OrZero(LatestByte(d, saves, key, i))))
               else (NotFound, [])
  {
    hide Held, NoEmptyFile, Load, LatestByte, Reached, MF.Window;
    var held := Held(d, saves, key);
    KeyHoldsHistory(d, saves, key, 0);
    LoadFromHeld(d, saves, key, size);
    WindowShows(held, size, 0);
    forall i | 0 <= i < size
      ensures MF.Window(held, 0, size)[i] == OrZero(LatestByte(d, saves, key, i))
    {
      KeyHoldsHistory(d, saves, key, i);
      LatestIsReached(d, saves, key, i);
      WindowShows(held, size, i);
    }
    assert MF.Window(held, 0, size) == seq(size, i requires 0 <= i < size => OrZero(LatestByte(d, saves, key, i)));
  }

  /** Keys that are not cut never show each other's saves. */
  lemma NamesAreOwn(d: Device, a: Key, b: Key)
    requires In64Bits(a) && In64Bits(b) && FitsPath(d.prefix, a) && FitsPath(d.prefix, b)
    ensures SameName(d.prefix, a, b) <==> a == b
  {
    PathsCollideExactly(d.prefix, a, b);
    if Path(d.prefix, a) == Path(d.prefix, b) {
      PathsInjective(d.prefix, a, b);
    }
  }

  // ---- two devices over one store -------------------------------------------------------

  function Ops(d: Device, saves: seq<Save>): (ops: seq<MF.Op>)
    ensures |ops| == |saves| && forall i :: 0 <= i < |ops| ==> ops[i] == SaveOp(d, saves[i])
    ensures forall i :: 0 <= i < |ops| ==> |ops[i].path| < MF.MAX_PATH_LEN
  {
    seq(|saves|, i requires 0 <= i < |saves| => SaveOp(d, saves[i]))
  }

  /** No load under `key` of the device `other` shows anything of these saves by `d`. */
  ghost predicate Undisturbed(s: MF.Store, d: Device, saves: seq<Save>, other: string, key: Key)
    requires MF.Fits(s)
  {
    var s', path := MF.After(s, Ops(d, saves)), Path(other, key);
    forall size, fault :: MF.Read(s', path, 0, size, fault) == MF.Read(s, path, 0, size, fault)
  }

  /** Unless one device's prefix goes on from the other's with "state_", no save of the one, and
      no history of them, changes what any load of the other shows. */
  lemma {:induction false} DevicesApart(s: MF.Store, d: Device, saves: seq<Save>, other: string, key: Key)
    requires MF.Fits(s) && AllIn64Bits(saves) && In64Bits(key) && !Entangled(d.prefix, other)
    ensures MF.Value(MF.After(s, Ops(d, saves)).files, Path(other, key)) == MF.Value(s.files, Path(other, key))
    ensures Undisturbed(s, d, saves, other, key)
    decreases |saves|
  {
    hide MF.Do, Path, Entangled, MF.Value, MF.Read;
    if saves != [] {
      var last := |saves| - 1;
      DevicesApart(s, d, saves[..last], other, key);
      assert Ops(d, saves)[..last] == Ops(d, saves[..last]);
      PrefixesShareExactly(d.prefix, other);
      MK.ShortKeepsOthers(MF.After(s, Ops(d, saves[..last])), SaveOp(d, saves[last]), Path(other, key));
    }
    SameReads(s, MF.After(s, Ops(d, saves)), Path(other, key));
  }

  lemma SameReads(s: MF.Store, s': MF.Store, path: string)
    requires MF.Fits(s) && MF.Fits(s') && MF.Value(s'.files, path) == MF.Value(s.files, path)
    ensures forall offset, size, fault ::
              MF.Read(s', path, offset, size, fault) == MF.Read(s, path, offset, size, fault)
  {
  }

  /** One save of one byte under a path that two devices share: the other's load, which found
      nothing in an empty store, now shows that byte. */
  lemma SharedPathShows(d: Device, a: Key, other: string, b: Key, x: byte)
    requires Path(d.prefix, a) == Path(other, b)
    ensures var s := MF.Empty(1, 1); var saves := [Save(a, [x], false, true)];
            && MF.Read(s, Path(other, b), 0, 1, false) == (NotFound, [])
            && MF.Read(MF.After(s, Ops(d, saves)), Path(other, b), 0, 1, false) == (Ok, [x])
            && !Undisturbed(s, d, saves, other, b)
  {
    hide Path, MF.Do, MF.Read;
    var s, save := MF.Empty(1, 1), Save(a, [x], false, true);
    var path := Path(d.prefix, a);
    assert MF.Read(s, path, 0, 1, false) == (NotFound, []) by { NothingInEmpty(path); }
    PathsAreShort(d, a);
    assert Ops(d, [save])[..0] == [];
    assert MF.After(s, Ops(d, [save])) == MF.Do(s, SaveOp(d, save)).store;
    SaveIntoEmpty(path, x);
    MK.WrittenReadsBack(s, path, 0, [x]);
  }

  lemma NothingInEmpty(path: string)
    ensures MF.Read(MF.Empty(1, 1), path, 0, 1, false) == (NotFound, [])
  {
  }

  lemma SaveIntoEmpty(path: string, x: byte)
    ensures var out := MF.Do(MF.Empty(1, 1), MF.OpWrite(path, 0, [x], false, true));
            out.status == Ok && out.store == MF.Write(MF.Empty(1, 1), path, 0, [x], false, true).0
  {
    MF.VerdictIsStatus(MF.Empty(1, 1), MF.OpWrite(path, 0, [x], false, true));
  }

  /** No history of saves by one device, from any store, changes any load of the other. */
  ghost predicate Isolated(d: Device, other: string) {
    forall s, saves, key ::
      MF.Fits(s) && AllIn64Bits(saves) && In64Bits(key) ==> Undisturbed(s, d, saves, other, key)
  }

  /** Two devices over one store are isolated if and only if their prefixes are not entangled. */
  lemma IsolatedExactly(d: Device, other: string)
    ensures Isolated(d, other) <==> !Entangled(d.prefix, other)
  {
    hide Undisturbed, Path, Entangled;
    PrefixesShareExactly(d.prefix, other);
    if Entangled(d.prefix, other) {
      var a, b :| In64Bits(a) && In64Bits(b) && Path(d.prefix, a) == Path(other, b);
      SharedPathShows(d, a, other, b, 0);
      assert AllIn64Bits([Save(a, [0], false, true)]);
    } else {
      forall s, saves, key | MF.Fits(s) && AllIn64Bits(saves) && In64Bits(key)
        ensures Undisturbed(s, d, saves, other, key)
      {
        DevicesApart(s, d, saves, other, key);
      }
    }
  }

  // ---- the adapter ----------------------------------------------------------------------

  class Adapter {
    const manager: SM.Manager
    const devicePrefix: string
    /** The saves that reached the chosen store since it was empty, and its limits. */
    ghost var saves: seq<Save>
    ghost const device: Device

    constructor (manager: SM.Manager, prefix: string)
      requires manager.Valid()
      requires manager.Chosen() != null ==> manager.Chosen().store.View().files == []
      ensures Valid() && this.manager == manager && saves == []
      ensures forall key :: Path(devicePrefix, key) == Path(prefix, key)
    {
      this.manager := manager;
      devicePrefix := Kept(prefix);
      saves := [];
      var chosen := manager.Chosen();
      device := if chosen == null then Device(Kept(prefix), 0, 0)
                else Device(Kept(prefix), chosen.store.maxFiles, chosen.store.maxFileSize);
    }

    /** The chosen store holds exactly what the saves so far made of an empty one. */
    ghost predicate Valid()
      reads this, manager, manager.backends, manager.list, manager.footprint
    {
      && manager.Valid()
      && this !in manager.footprint
      && device.prefix == devicePrefix
      && |devicePrefix| < DEVICE_PREFIX_LEN
      && (manager.Chosen() != null ==> manager.Chosen().store.View() == StoreAfter(device, saves))
    }

    method BuildFullPath(prefix: string, key: string) returns (path: string)
      requires |devicePrefix| < DEVICE_PREFIX_LEN
      ensures path == Cut(devicePrefix + prefix + key, MF.MAX_PATH_LEN - 1)
      ensures forall k :: Text(k) == prefix + key ==> path == Path(devicePrefix, k)
    {
      path := Cut(devicePrefix + prefix + key, MF.MAX_PATH_LEN - 1);
      assert devicePrefix + prefix + key == devicePrefix + (prefix + key);
    }

    method AppendLog(index: nat, data: seq<byte>, fault: bool, memory: bool) returns (status: Status)
      requires Valid()
      modifies this`saves, manager`stats, manager`footprint, manager.footprint
      ensures Valid() && fresh(manager.footprint - old(manager.footprint))
      ensures saves == old(saves) + if Recorded(data) then [Save(Log(index), data, fault, memory)] else []
      ensures status == if data == [] then InvalidParam
                        else if manager.Chosen() == null then Error
                        else Result(device, saves)
    {
      if |data| == 0 {
        return InvalidParam;
      }
      var path := BuildFullPath("log_", Decimal(index));
      status := Through(Log(index), path, data, fault, memory);
    }

    method SaveState(name: string, data: seq<byte>, fault: bool, memory: bool) returns (status: Status)
      requires Valid()
      modifies this`saves, manager`stats, manager`footprint, manager.footprint
      ensures Valid() && fresh(manager.footprint - old(manager.footprint))
      ensures saves == old(saves) + if Recorded(data) then [Save(State(name), data, fault, memory)] else []
      ensures status == if data == [] then InvalidParam
                        else if manager.Chosen() == null then Error
                        else Result(device, saves)
    {
      if |data| == 0 {
        return InvalidParam;
      }
      var path := BuildFullPath("state_", name);
      status := Through(State(name), path, data, fault, memory);
    }

    method SaveSnapshot(index: nat, data: seq<byte>, fault: bool, memory: bool) returns (status: Status)
      requires Valid()
      modifies this`saves, manager`stats, manager`footprint, manager.footprint
      ensures Valid() && fresh(manager.footprint - old(manager.footprint))
      ensures saves == old(saves) + if Recorded(data) then [Save(Snapshot(index), data, fault, memory)] else []
      ensures status == if data == [] then InvalidParam
                        else if manager.Chosen() == null then Error
                        else Result(device, saves)
    {
      if |data| == 0 {
        return InvalidParam;
      }
      var path := BuildFullPath("snap_", Decimal(index));
      status := Through(Snapshot(index), path, data, fault, memory);
    }

    /** Whether a save gets as far as a store. */
    ghost predicate Recorded(data: seq<byte>)
      reads manager, manager.list
    {
      data != [] && manager.Chosen() != null
    }

    method Through(ghost key: Key, path: string, data: seq<byte>, fault: bool, memory: bool) returns (status: Status)
      requires Valid() && |data| > 0 && path == Path(devicePrefix, key)
      modifies this`saves, manager`stats, manager`footprint, manager.footprint
      ensures Valid() && fresh(manager.footprint - old(manager.footprint))
      ensures saves == old(saves) + if Recorded(data) then [Save(key, data, fault, memory)] else []
      ensures status == if data == [] then InvalidParam
                        else if manager.Chosen() == null then Error
                        else Result(device, saves)
    {
      hide MF.Write, Path, MF.Inv, SM.Choice, Result, StoreAfter;
      SaveExtends(device, saves, Save(key, data, fault, memory));
      status := manager.Write(path, 0, data, fault, memory);
      if manager.Chosen() != null {
        saves := saves + [Save(key, data, fault, memory)];
      }
    }

    method ReadLog(index: nat, buffer: array<byte>, size: nat, fault: bool) returns (status: Status)
      requires Valid() && size <= buffer.Length && buffer as object !in manager.footprint + {manager.backends}
      modifies manager`stats, buffer
      ensures Valid() && Loaded(Log(index), old(buffer[..]), buffer[..], size, fault, status)
    {
      var path := BuildFullPath("log_", Decimal(index));
      status := Back(Log(index), path, buffer, size, fault);
    }

    method LoadState(name: string, buffer: array<byte>, size: nat, fault: bool) returns (status: Status)
      requires Valid() && size <= buffer.Length && buffer as object !in manager.footprint + {manager.backends}
      modifies manager`stats, buffer
      ensures Valid() && Loaded(State(name), old(buffer[..]), buffer[..], size, fault, status)
    {
      var path := BuildFullPath("state_", name);
      status := Back(State(name), path, buffer, size, fault);
    }

    method LoadSnapshot(index: nat, buffer: array<byte>, size: nat, fault: bool) returns (status: Status)
      requires Valid() && size <= buffer.Length && buffer as object !in manager.footprint + {manager.backends}
      modifies manager`stats, buffer
      ensures Valid() && Loaded(Snapshot(index), old(buffer[..]), buffer[..], size, fault, status)
    {
      var path := BuildFullPath("snap_", Decimal(index));
      status := Back(Snapshot(index), path, buffer, size, fault);
    }

    /** What a load returns, and what it makes of the caller's buffer. */
    ghost predicate Loaded(key: Key, was: seq<byte>, now: seq<byte>, size: nat, fault: bool, status: Status)
      requires size <= |was|
      reads this, manager, manager.list
    {
      if size == 0 then status == InvalidParam && now == was
      else if manager.Chosen() == null then status == Error && now == was
      else if fault then status == Io && now == was
      else
        var (found, bytes) := Load(device, saves, key, size);
        status == found && now == if found == Ok then bytes + was[size..] else was
    }

    method Back(ghost key: Key, path: string, buffer: array<byte>, size: nat, fault: bool) returns (status: Status)
      requires Valid() && size <= buffer.Length && buffer as object !in manager.footprint + {manager.backends}
      requires path == Path(devicePrefix, key)
      modifies manager`stats, buffer
      ensures Valid() && Loaded(key, old(buffer[..]), buffer[..], size, fault, status)
    {
      status := manager.Read(path, 0, buffer, size, fault);
    }
  }
}
