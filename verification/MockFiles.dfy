/** The mock file store of src/storage/mock_storage.c on values: a list of growable buffers,
    and the plain map from paths to bytes that it stands for. */
module MockFiles {
  import opened Base

  const MAX_PATH_LEN := 512

  /** `buffer` is the whole allocation, of which the first `size` bytes are the file; `moved` is
      the sum of the old capacities passed to realloc so far. */
  datatype File = File(path: string, buffer: seq<byte>, size: nat, moved: nat)

  datatype Store = Store(files: seq<File>, maxFiles: nat, maxFileSize: nat)

  function Zeros(n: nat): (z: seq<byte>)
    ensures |z| == n
  {
    seq(n, _ => 0 as byte)
  }

  /** strncpy into a 512-byte field that was cleared. */
  function StoredPath(path: string): string {
    if |path| < MAX_PATH_LEN then path else path[..MAX_PATH_LEN - 1]
  }

  /** The first file with this path, or the number of files. */
  function Find(files: seq<File>, path: string): (i: nat)
    ensures i <= |files|
  {
    if files == [] then 0
    else if files[0].path == path then 0
    else 1 + Find(files[1..], path)
  }

  function NewFile(path: string, size: nat): File {
    File(StoredPath(path), Zeros(size), size, 0)
  }

  lemma NewFileSized(path: string, size: nat)
    ensures NewFile(path, size).size == |NewFile(path, size).buffer| == size
  {
  }

  function Expand(f: File, newSize: nat): File
    requires f.size <= |f.buffer|
  {
    if newSize <= |f.buffer| then
      if newSize > f.size then
        f.(buffer := f.buffer[..f.size] + Zeros(newSize - f.size) + f.buffer[newSize..], size := newSize)
      else f
    else
      f.(buffer := f.buffer[..f.size] + Zeros(2 * newSize - f.size), size := newSize, moved := f.moved + |f.buffer|)
  }

  lemma ExpandSized(f: File, newSize: nat)
    requires f.size <= |f.buffer|
    ensures Expand(f, newSize).size <= |Expand(f, newSize).buffer|
    ensures newSize > f.size ==> Expand(f, newSize).size == newSize
  {
  }

  function Put(f: File, offset: nat, data: seq<byte>): File
    requires offset + |data| <= |f.buffer|
  {
    f.(buffer := f.buffer[..offset] + data + f.buffer[offset + |data|..])
  }

  ghost predicate FileFits(f: File) {
    && |f.path| < MAX_PATH_LEN
    && f.size <= |f.buffer| <= 2 * f.size
    && f.moved <= |f.buffer|
    && forall k :: f.size <= k < |f.buffer| ==> f.buffer[k] == 0
  }

  ghost predicate Sized(s: Store) {
    forall i :: 0 <= i < |s.files| ==> s.files[i].size <= |s.files[i].buffer|
  }

  /** `fault` is an injected error, `memory` is false when an allocation fails. */
  function Write(s: Store, path: string, offset: nat, data: seq<byte>, fault: bool, memory: bool): (Store, Status)
    requires Sized(s)
  {
    if data == [] then (s, InvalidParam)
    else if fault then (s, Io)
    else
      var i, end := Find(s.files, path), offset + |data|;
      if i == |s.files| && (|s.files| >= s.maxFiles || !memory) then (s, OutOfMemory)
      else
        var found := if i == |s.files| then s.(files := [NewFile(path, end)] + s.files) else s;
        var (files, status) := WriteAt(found, if i == |s.files| then 0 else i, offset, data, memory);
        (s.(files := files), status)
  }

  function WriteAt(s: Store, at: nat, offset: nat, data: seq<byte>, memory: bool): (seq<File>, Status)
    requires Sized(s) && at < |s.files|
  {
    var f, end := s.files[at], offset + |data|;
    if end > |f.buffer| && !memory then (s.files, OutOfMemory)
    else
      var g := if end > f.size then Expand(f, end) else f;
      if g.size > s.maxFileSize then (s.files[at := g], NoSpace)
      else (s.files[at := Put(g, offset, data)], Ok)
  }

  /** `size` bytes from `offset`, zero-padded past the end of the file. */
  function Window(content: seq<byte>, offset: nat, size: nat): seq<byte>
    requires offset <= |content|
  {
    if offset + size <= |content| then content[offset..offset + size]
    else content[offset..] + Zeros(offset + size - |content|)
  }

  function Read(s: Store, path: string, offset: nat, size: nat, fault: bool): (Status, seq<byte>)
    requires Sized(s)
  {
    if size == 0 then (InvalidParam, [])
    else if fault then (Io, [])
    else
      var i := Find(s.files, path);
      if i == |s.files| || offset >= s.files[i].size then (NotFound, [])
      else (Ok, Window(s.files[i].buffer[..s.files[i].size], offset, size))
  }

  function Create(s: Store, path: string, size: nat, memory: bool): (Store, Status) {
    if Find(s.files, path) < |s.files| then (s, Exists)
    else if |s.files| >= s.maxFiles || !memory then (s, OutOfMemory)
    else (s.(files := [NewFile(path, size)] + s.files), Ok)
  }

  function Delete(s: Store, path: string): (Store, Status) {
    var i := Find(s.files, path);
    if i == |s.files| then (s, NotFound)
    else (s.(files := s.files[..i] + s.files[i + 1..]), Ok)
  }

  // ---- the map it stands for ------------------------------------------------------------

  type Contents = map<string, seq<byte>>

  function Content(f: File): seq<byte>
    requires f.size <= |f.buffer|
  {
    f.buffer[..f.size]
  }

  ghost function ToMap(files: seq<File>): Contents
    requires forall i :: 0 <= i < |files| ==> files[i].size <= |files[i].buffer|
  {
    map i | 0 <= i < |files| && Find(files, files[i].path) == i :: files[i].path := Content(files[i])
  }

  /** What every operation keeps, under any path. */
  ghost predicate Fits(s: Store) {
    |s.files| <= s.maxFiles && forall i :: 0 <= i < |s.files| ==> FileFits(s.files[i])
  }

  ghost predicate Inv(s: Store) {
    Fits(s) && forall i, j :: 0 <= i < j < |s.files| ==> s.files[i].path != s.files[j].path
  }

  function Padded(content: seq<byte>, size: nat): seq<byte> {
    if size <= |content| then content else content + Zeros(size - |content|)
  }

  function Spliced(content: seq<byte>, offset: nat, data: seq<byte>): seq<byte>
    requires offset + |data| <= |content|
  {
    content[..offset] + data + content[offset + |data|..]
  }

  /** Byte by byte: a window shows the content and then zeros, padding adds zeros at the end, and
      splicing replaces exactly the bytes it covers. */
  lemma BytesAt(content: seq<byte>, offset: nat, data: seq<byte>, size: nat, k: nat)
    ensures |Padded(content, size)| == (if size > |content| then size else |content|)
    ensures k < |Padded(content, size)| ==> Padded(content, size)[k] == if k < |content| then content[k] else 0
    ensures offset <= |content| ==> |Window(content, offset, size)| == size
    ensures offset <= |content| && k < size ==>
              Window(content, offset, size)[k] == if offset + k < |content| then content[offset + k] else 0
    ensures offset + |data| <= |content| ==> |Spliced(content, offset, data)| == |content|
    ensures offset + |data| <= |content| && k < |content| ==>
              Spliced(content, offset, data)[k]
              == if offset <= k < offset + |data| then data[k - offset] else content[k]
  {
  }

  function Get(m: Contents, path: string): seq<byte> {
    if path in m then m[path] else []
  }

  lemma {:induction false} FindFinds(files: seq<File>, path: string)
    ensures var i := Find(files, path);
            && (i < |files| ==> files[i].path == path)
            && forall k :: 0 <= k < i ==> files[k].path != path
  {
    if files != [] && files[0].path != path {
      FindFinds(files[1..], path);
      forall k | 0 <= k < Find(files, path)
        ensures files[k].path != path
      {
        if k > 0 {
          assert files[k] == files[1..][k - 1];
        }
      }
    }
  }

  /** What the map holds for one path. */
  function Value(files: seq<File>, path: string): Option<seq<byte>>
    requires forall i :: 0 <= i < |files| ==> files[i].size <= |files[i].buffer|
  {
    var i := Find(files, path);
    if i < |files| then Some(Content(files[i])) else None
  }

  lemma Lookup(s: Store, path: string)
    requires Inv(s)
    ensures var v, m := Value(s.files, path), ToMap(s.files);
            (path in m <==> v.Some?) && (path in m ==> v == Some(m[path]))
  {
    FindFinds(s.files, path);
    forall k | 0 <= k < |s.files|
      ensures Find(s.files, s.files[k].path) == k
    {
      FindFinds(s.files, s.files[k].path);
    }
  }

  lemma MapUpdated(s: Store, s': Store, path: string, v: seq<byte>)
    requires Inv(s) && Inv(s')
    requires forall p :: Value(s'.files, p) == if p == path then Some(v) else Value(s.files, p)
    ensures ToMap(s'.files) == ToMap(s.files)[path := v]
  {
    hide Value, ToMap;
    var m, m' := ToMap(s.files), ToMap(s'.files);
    forall p
      ensures p in m' <==> p == path || p in m
      ensures p in m' ==> m'[p] == m[path := v][p]
    {
      Lookup(s, p);
      Lookup(s', p);
    }
  }

  lemma MapRemoved(s: Store, s': Store, path: string)
    requires Inv(s) && Inv(s')
    requires forall p :: Value(s'.files, p) == if p == path then None else Value(s.files, p)
    ensures ToMap(s'.files) == ToMap(s.files) - {path}
  {
    hide Value, ToMap;
    var m, m' := ToMap(s.files), ToMap(s'.files);
    forall p
      ensures p in m' <==> p != path && p in m
      ensures p in m' ==> m'[p] == (m - {path})[p]
    {
      Lookup(s, p);
      Lookup(s', p);
    }
  }

  ghost function Paths(files: seq<File>): set<string> {
    set i | 0 <= i < |files| :: files[i].path
  }

  lemma {:induction false} PathsCount(files: seq<File>)
    requires forall i, j :: 0 <= i < j < |files| ==> files[i].path != files[j].path
    ensures |Paths(files)| == |files|
    decreases |files|
  {
    if files != [] {
      var last := |files| - 1;
      PathsCount(files[..last]);
      assert Paths(files) == Paths(files[..last]) + {files[last].path};
    }
  }

  /** The map has one entry a file. */
  lemma MapCount(s: Store)
    requires Inv(s)
    ensures ToMap(s.files).Keys == Paths(s.files) && |ToMap(s.files)| == |s.files|
  {
    forall p
      ensures p in ToMap(s.files) <==> p in Paths(s.files)
    {
      Lookup(s, p);
      FindFinds(s.files, p);
    }
    assert ToMap(s.files).Keys == Paths(s.files);
    PathsCount(s.files);
    assert |ToMap(s.files)| == |ToMap(s.files).Keys|;
  }

  lemma {:induction false} FindSamePaths(files: seq<File>, files': seq<File>, path: string)
    requires |files| == |files'| && forall k :: 0 <= k < |files| ==> files[k].path == files'[k].path
    ensures Find(files, path) == Find(files', path)
    decreases |files|
  {
    if files != [] {
      FindSamePaths(files[1..], files'[1..], path);
    }
  }

  /** A file in the list is replaced by one with the same path. */
  lemma ReplaceInMap(s: Store, at: nat, g: File)
    requires Inv(s) && at < |s.files| && FileFits(g) && g.path == s.files[at].path
    ensures var s' := s.(files := s.files[at := g]);
            Inv(s') && ToMap(s'.files) == ToMap(s.files)[g.path := Content(g)]
  {
    var s' := s.(files := s.files[at := g]);
    forall p
      ensures Value(s'.files, p) == if p == g.path then Some(Content(g)) else Value(s.files, p)
    {
      FindSamePaths(s.files, s'.files, p);
      FindFinds(s.files, p);
    }
    MapUpdated(s, s', g.path, Content(g));
  }

  /** A file with a new path is put at the head. */
  lemma PrependInMap(s: Store, f: File)
    requires Inv(s) && |s.files| < s.maxFiles && FileFits(f) && Find(s.files, f.path) == |s.files|
    ensures var s' := s.(files := [f] + s.files);
            Inv(s') && ToMap(s'.files) == ToMap(s.files)[f.path := Content(f)]
  {
    var s' := s.(files := [f] + s.files);
    FindFinds(s.files, f.path);
    assert Inv(s');
    assert s'.files[1..] == s.files;
    MapUpdated(s, s', f.path, Content(f));
  }

  lemma FindAfterDelete(files: seq<File>, i: nat, p: string)
    requires i < |files| && (forall k, m :: 0 <= k < m < |files| ==> files[k].path != files[m].path)
    ensures var rest, k := files[..i] + files[i + 1..], Find(files, p);
            Find(rest, p) == if p == files[i].path then |rest| else if k < i then k else k - 1
  {
    var rest, k := files[..i] + files[i + 1..], Find(files, p);
    FindFinds(files, p);
    FindFinds(rest, p);
    assert forall n :: 0 <= n < |rest| ==> rest[n] == files[if n < i then n else n + 1];
    if p != files[i].path && k < |files| {
      assert rest[if k < i then k else k - 1].path == p;
    }
  }

  lemma DeleteFits(s: Store, path: string)
    requires Inv(s)
    ensures Inv(Delete(s, path).0)
  {
    var i := Find(s.files, path);
    var rest := Delete(s, path).0.files;
    assert i < |s.files| ==> forall k :: 0 <= k < |rest| ==> rest[k] == s.files[if k < i then k else k + 1];
  }

  lemma ValueAfterDelete(s: Store, path: string, p: string)
    requires Inv(s) && Find(s.files, path) < |s.files| && Inv(Delete(s, path).0)
    ensures Value(Delete(s, path).0.files, p) == if p == path then None else Value(s.files, p)
  {
    var i := Find(s.files, path);
    FindFinds(s.files, path);
    FindAfterDelete(s.files, i, p);
    FindFinds(s.files, p);
  }

  lemma DeleteInMap(s: Store, path: string)
    requires Inv(s) && Find(s.files, path) < |s.files|
    ensures var s' := Delete(s, path).0;
            Inv(s') && ToMap(s'.files) == ToMap(s.files) - {path}
  {
    hide Delete, Find, Value, ToMap;
    var s' := Delete(s, path).0;
    DeleteFits(s, path);
    forall p
      ensures Value(s'.files, p) == if p == path then None else Value(s.files, p)
    {
      ValueAfterDelete(s, path, p);
    }
    MapRemoved(s, s', path);
  }

  /** Growth: an expanded file keeps its bytes, gains zeros, and stays within the bounds. */
  lemma ExpandFits(f: File, newSize: nat)
    requires FileFits(f) && newSize > f.size
    ensures var g := Expand(f, newSize);
            && FileFits(g) && g.size == newSize && g.path == f.path && Content(g) == Padded(Content(f), newSize)
            && (|g.buffer| != |f.buffer| <==> newSize > |f.buffer|)
            && g.moved == f.moved + if |g.buffer| != |f.buffer| then |f.buffer| else 0
  {
  }

  lemma PutFits(f: File, offset: nat, data: seq<byte>)
    requires FileFits(f) && offset + |data| <= f.size
    ensures var g := Put(f, offset, data);
            && FileFits(g) && g.path == f.path && g.size == f.size && |g.buffer| == |f.buffer|
            && Content(g) == Spliced(Content(f), offset, data)
  {
  }

  // ---- refinement -----------------------------------------------------------------------

  datatype Op =
    | OpWrite(path: string, offset: nat, data: seq<byte>, fault: bool, memory: bool)
    | OpRead(path: string, offset: nat, size: nat, fault: bool)
    | OpCreate(path: string, initial: nat, memory: bool)
    | OpDelete(path: string)

  datatype Outcome = Outcome(store: Store, status: Status, bytes: seq<byte>)

  function Do(s: Store, op: Op): Outcome
    requires Sized(s)
  {
    match op
    case OpWrite(path, offset, data, fault, memory) =>
      var (s', status) := Write(s, path, offset, data, fault, memory); Outcome(s', status, [])
    case OpRead(path, offset, size, fault) =>
      var (status, bytes) := Read(s, path, offset, size, fault); Outcome(s, status, bytes)
    case OpCreate(path, initial, memory) =>
      var (s', status) := Create(s, path, initial, memory); Outcome(s', status, [])
    case OpDelete(path) =>
      var (s', status) := Delete(s, path); Outcome(s', status, [])
  }

  /** What a map from paths to bytes, limited in entries and in bytes an entry, may do. Only
      running out of memory is left open; everything else is determined. */
  ghost predicate MapAllows(m: Contents, maxFiles: nat, maxFileSize: nat, op: Op,
                            status: Status, bytes: seq<byte>, m': Contents)
  {
    match op
    case OpWrite(path, offset, data, fault, memory) =>
      var full := path !in m && |m| >= maxFiles;
      var padded := Padded(Get(m, path), offset + |data|);
      if data == [] then status == InvalidParam && m' == m
      else if fault then status == Io && m' == m
      else if status == OutOfMemory then (full || !memory) && m' == m
      else
        && !full
        && if |padded| > maxFileSize then status == NoSpace && m' == m[path := padded]
           else status == Ok && m' == m[path := Spliced(padded, offset, data)]
    case OpRead(path, offset, size, fault) =>
      && m' == m
      && if size == 0 then status == InvalidParam
         else if fault then status == Io
         else if path !in m || offset >= |m[path]| then status == NotFound
         else status == Ok && bytes == Window(m[path], offset, size)
    case OpCreate(path, initial, memory) =>
      if path in m then status == Exists && m' == m
      else if |m| >= maxFiles || !memory then status == OutOfMemory && m' == m
      else status == Ok && m' == m[path := Zeros(initial)]
    case OpDelete(path) =>
      if path in m then status == Ok && m' == m - {path} else status == NotFound && m' == m
  }

  /** The file that a write leaves at the head when it had to create one. */
  ghost function Written(s: Store, op: Op): File
    requires op.OpWrite?
  {
    var f := NewFile(op.path, op.offset + |op.data|);
    if f.size > s.maxFileSize then f else Put(f, op.offset, op.data)
  }

  lemma WriteCreates(s: Store, op: Op)
    requires Sized(s) && op.OpWrite? && op.data != [] && !op.fault
    requires Find(s.files, op.path) == |s.files| < s.maxFiles && op.memory
    ensures Do(s, op).store == s.(files := [Written(s, op)] + s.files)
    ensures Do(s, op).status == if op.offset + |op.data| > s.maxFileSize then NoSpace else Ok
  {
    hide NewFile, Put;
    var f := NewFile(op.path, op.offset + |op.data|);
    NewFileSized(op.path, op.offset + |op.data|);
    assert forall g: File :: ([f] + s.files)[0 := g] == [g] + s.files;
  }

  lemma WrittenFits(s: Store, op: Op)
    requires op.OpWrite?
    ensures var end := op.offset + |op.data|;
            && FileFits(Written(s, op)) && Written(s, op).path == StoredPath(op.path)
            && Written(s, op).size == |Written(s, op).buffer| == end
            && Content(Written(s, op))
               == if end > s.maxFileSize then Padded([], end) else Spliced(Padded([], end), op.offset, op.data)
  {
    hide Put;
    var f := NewFile(op.path, op.offset + |op.data|);
    assert Content(f) == Padded([], op.offset + |op.data|);
    PutFits(f, op.offset, op.data);
  }

  lemma WriteToNew(s: Store, op: Op)
    requires Inv(s) && op.OpWrite? && |op.path| < MAX_PATH_LEN && op.data != [] && !op.fault
    requires Find(s.files, op.path) == |s.files| < s.maxFiles && op.memory
    ensures var out := Do(s, op); var end := op.offset + |op.data|;
            && Inv(out.store) && |Padded([], end)| == end
            && out.status == (if end > s.maxFileSize then NoSpace else Ok)
            && ToMap(out.store.files) == ToMap(s.files)[op.path :=
                 if end > s.maxFileSize then Padded([], end) else Spliced(Padded([], end), op.offset, op.data)]
  {
    hide ToMap, Written, Do, Content;
    WriteCreates(s, op);
    WrittenFits(s, op);
    PrependInMap(s, Written(s, op));
  }

  /** A write that found a file leaves that file in its place, padded and, unless refused for
      size, written over. */
  lemma WriteFinds(s: Store, op: Op)
    requires Fits(s) && op.OpWrite? && op.data != [] && !op.fault
    requires Find(s.files, op.path) < |s.files| && Do(s, op).status != OutOfMemory
    ensures var out, i := Do(s, op), Find(s.files, op.path); var f := s.files[i];
            var padded := Padded(Content(f), op.offset + |op.data|);
            && out.status == (if |padded| > s.maxFileSize then NoSpace else Ok)
            && i < |out.store.files| && out.store == s.(files := s.files[i := out.store.files[i]])
            && var g := out.store.files[i];
               && FileFits(g) && g.path == f.path
               && Content(g) == if |padded| > s.maxFileSize then padded else Spliced(padded, op.offset, op.data)
  {
    hide Expand;
    var i, end := Find(s.files, op.path), op.offset + |op.data|;
    var f := s.files[i];
    if end > f.size {
      ExpandFits(f, end);
    }
    var g := if end > f.size then Expand(f, end) else f;
    PutFits(g, op.offset, op.data);
  }

  lemma WriteToOld(s: Store, op: Op)
    requires Inv(s) && op.OpWrite? && |op.path| < MAX_PATH_LEN && op.data != [] && !op.fault
    requires Find(s.files, op.path) < |s.files| && Do(s, op).status != OutOfMemory
    ensures var out := Do(s, op); var f := s.files[Find(s.files, op.path)];
            var padded := Padded(Content(f), op.offset + |op.data|);
            && Inv(out.store)
            && out.status == (if |padded| > s.maxFileSize then NoSpace else Ok)
            && ToMap(out.store.files) == ToMap(s.files)[op.path :=
                 if |padded| > s.maxFileSize then padded else Spliced(padded, op.offset, op.data)]
  {
    hide ToMap, Do, Content;
    var i := Find(s.files, op.path);
    FindFinds(s.files, op.path);
    WriteFinds(s, op);
    ReplaceInMap(s, i, Do(s, op).store.files[i]);
  }

  lemma WriteRefused(s: Store, op: Op)
    requires Sized(s) && op.OpWrite?
    ensures var out := Do(s, op);
            && out.store.maxFiles == s.maxFiles && out.store.maxFileSize == s.maxFileSize && out.bytes == []
            && (op.data == [] ==> out.status == InvalidParam && out.store == s)
            && (op.data != [] && op.fault ==> out.status == Io && out.store == s)
            && (out.status == OutOfMemory ==> out.store == s)
            && (op.data != [] && !op.fault && Find(s.files, op.path) == |s.files| ==>
                  (out.status == OutOfMemory <==> |s.files| >= s.maxFiles || !op.memory))
            && (out.status == OutOfMemory && Find(s.files, op.path) < |s.files| ==> !op.memory)
  {
    hide Expand, Put, Find;
  }

  lemma WriteRefines(s: Store, op: Op)
    requires Inv(s) && op.OpWrite? && |op.path| < MAX_PATH_LEN
    ensures var out := Do(s, op);
            && Inv(out.store) && out.store.maxFiles == s.maxFiles && out.store.maxFileSize == s.maxFileSize
            && MapAllows(ToMap(s.files), s.maxFiles, s.maxFileSize, op, out.status, out.bytes, ToMap(out.store.files))
  {
    hide ToMap, Do, Find, Padded, Spliced, Content;
    Lookup(s, op.path);
    MapCount(s);
    WriteRefused(s, op);
    if op.data != [] && !op.fault && Do(s, op).status != OutOfMemory {
      if Find(s.files, op.path) == |s.files| {
        WriteToNew(s, op);
      } else {
        WriteToOld(s, op);
      }
    }
  }

  /** Every operation on the list is one the map allows, and keeps the list's invariant. */
  lemma DoRefines(s: Store, op: Op)
    requires Inv(s) && |op.path| < MAX_PATH_LEN
    ensures var out := Do(s, op);
            && Inv(out.store) && out.store.maxFiles == s.maxFiles && out.store.maxFileSize == s.maxFileSize
            && MapAllows(ToMap(s.files), s.maxFiles, s.maxFileSize, op, out.status, out.bytes, ToMap(out.store.files))
  {
    hide ToMap, Find, Write;
    Lookup(s, op.path);
    MapCount(s);
    match op {
      case OpWrite(_, _, _, _, _) => WriteRefines(s, op);
      case OpRead(_, _, _, _) =>
      case OpCreate(path, initial, memory) =>
        if Do(s, op).status == Ok {
          PrependInMap(s, NewFile(path, initial));
          assert Content(NewFile(path, initial)) == Zeros(initial);
        }
      case OpDelete(path) =>
        if Do(s, op).status == Ok {
          DeleteInMap(s, path);
        }
    }
  }

  function Empty(maxFiles: nat, maxFileSize: nat): Store {
    Store([], maxFiles, maxFileSize)
  }

  lemma NewFits(path: string, size: nat)
    ensures var f := NewFile(path, size);
            FileFits(f) && f.path == StoredPath(path) && f.size == size && Content(f) == Zeros(size)
  {
  }

  lemma DoKeepsFits(s: Store, op: Op)
    requires Fits(s)
    ensures var s' := Do(s, op).store; Fits(s') && s'.maxFiles == s.maxFiles && s'.maxFileSize == s.maxFileSize
  {
    hide FileFits, Find, Write;
    match op {
      case OpWrite(_, _, _, _, _) => WriteKeepsFits(s, op);
      case OpRead(_, _, _, _) =>
      case OpCreate(path, initial, _) => NewFits(path, initial);
      case OpDelete(path) =>
        var i := Find(s.files, path);
        if i < |s.files| {
          var rest := s.files[..i] + s.files[i + 1..];
          assert forall k :: 0 <= k < |rest| ==> rest[k] == s.files[if k < i then k else k + 1];
        }
    }
  }

  lemma WriteKeepsFits(s: Store, op: Op)
    requires Fits(s) && op.OpWrite?
    ensures var s' := Do(s, op).store; Fits(s') && s'.maxFiles == s.maxFiles && s'.maxFileSize == s.maxFileSize
  {
    hide Do, Written, Find, Content;
    WriteRefused(s, op);
    if op.data != [] && !op.fault && Do(s, op).status != OutOfMemory {
      if Find(s.files, op.path) == |s.files| {
        WriteCreates(s, op);
        WrittenFits(s, op);
      } else {
        WriteFinds(s, op);
      }
    }
  }

  ghost predicate AllShort(ops: seq<Op>) {
    forall i :: 0 <= i < |ops| ==> |ops[i].path| < MAX_PATH_LEN
  }

  /** Under short paths the list never holds one path twice. */
  ghost function After(s: Store, ops: seq<Op>): (s': Store)
    requires Fits(s)
    ensures Fits(s') && s'.maxFiles == s.maxFiles && s'.maxFileSize == s.maxFileSize
    ensures Inv(s) && AllShort(ops) ==> Inv(s')
    decreases |ops|
  {
    if ops == [] then s
    else
      var last := |ops| - 1;
      var before := After(s, ops[..last]);
      DoKeepsFits(before, ops[last]);
      ShortKeepsInv(before, ops[last]);
      Do(before, ops[last]).store
  }

  lemma ShortKeepsInv(s: Store, op: Op)
    requires Fits(s)
    ensures Inv(s) && |op.path| < MAX_PATH_LEN ==> Inv(Do(s, op).store)
  {
    hide Do, Inv;
    if Inv(s) && |op.path| < MAX_PATH_LEN {
      DoRefines(s, op);
    }
  }

  lemma StoredIsShort(s: Store, path: string)
    requires Fits(s) && |path| >= MAX_PATH_LEN
    ensures Find(s.files, path) == |s.files| && path !in ToMap(s.files)
  {
    FindFinds(s.files, path);
  }

  /** From a list of distinct paths an operation is one the map allows if and only if its path
      fits the 512-byte field or it changes nothing. */
  lemma RefinesExactly(s: Store, op: Op)
    requires Inv(s)
    ensures var out := Do(s, op);
            && Fits(out.store)
            && (MapAllows(ToMap(s.files), s.maxFiles, s.maxFileSize, op, out.status, out.bytes, ToMap(out.store.files))
                <==> |op.path| < MAX_PATH_LEN || out.store == s)
  {
    hide ToMap, Do;
    DoKeepsFits(s, op);
    if |op.path| < MAX_PATH_LEN {
      DoRefines(s, op);
    } else {
      StoredIsShort(s, op.path);
      StoredIsShort(Do(s, op).store, op.path);
      MapCount(s);
      LongPathDoes(s, op);
    }
  }

  /** What an operation under a path of 512 characters or more does: it finds nothing, so it
      either changes nothing or puts a file at the head of the list. */
  lemma LongPathDoes(s: Store, op: Op)
    requires Fits(s) && |op.path| >= MAX_PATH_LEN
    ensures var out := Do(s, op); var refused := |s.files| >= s.maxFiles;
            && (out.store == s <==> !(op.OpWrite? && LeavesFile(out.status)) && !(op.OpCreate? && out.status == Ok))
            && match op
               case OpWrite(_, _, data, fault, memory) =>
                 if data == [] then out.status == InvalidParam
                 else if fault then out.status == Io
                 else if refused || !memory then out.status == OutOfMemory
                 else LeavesFile(out.status)
               case OpRead(_, _, size, fault) =>
                 out.status == if size == 0 then InvalidParam else if fault then Io else NotFound
               case OpCreate(_, _, memory) => out.status == if refused || !memory then OutOfMemory else Ok
               case OpDelete(_) => out.status == NotFound
  {
    hide ToMap, Find, NewFile, Put, Expand;
    StoredIsShort(s, op.path);
    if op.OpWrite? {
      WriteRefused(s, op);
      if LeavesFile(Do(s, op).status) {
        WriteCreates(s, op);
      }
    }
  }

  /** The store refines a map. At every point of every run at most `maxFiles` files are listed
      and each is well formed. As long as the paths listed are distinct, which runs under short
      paths keep them, the next operation is one the map allows if and only if its path is short
      or it changes nothing. */
  lemma RunRefines(maxFiles: nat, maxFileSize: nat, ops: seq<Op>, op: Op)
    ensures var s := After(Empty(maxFiles, maxFileSize), ops);
            var out := Do(s, op);
            && |s.files| <= maxFiles && Fits(s) && Fits(out.store)
            && (AllShort(ops) ==> Inv(s))
            && (Inv(s) ==>
                  (MapAllows(ToMap(s.files), maxFiles, maxFileSize, op, out.status, out.bytes, ToMap(out.store.files))
                   <==> |op.path| < MAX_PATH_LEN || out.store == s))
    ensures ToMap(Empty(maxFiles, maxFileSize).files) == map[]
  {
    var s := After(Empty(maxFiles, maxFileSize), ops);
    DoKeepsFits(s, op);
    if Inv(s) {
      RefinesExactly(s, op);
    }
  }

  // ---- refusals for size ----------------------------------------------------------------

  /** A write refused for its size changes nothing if and only if it lies inside a file that is
      there already; otherwise it leaves a file grown or created, with zeros. */
  lemma RefusalKeepsExactly(s: Store, op: Op)
    requires Inv(s) && op.OpWrite? && |op.path| < MAX_PATH_LEN && Do(s, op).status == NoSpace
    ensures Inv(Do(s, op).store)
    ensures var m, m' := ToMap(s.files), ToMap(Do(s, op).store.files);
            m' == m <==> op.path in m && op.offset + |op.data| <= |m[op.path]|
  {
    hide ToMap, Do;
    WriteRefined(s, op);
    var m, m' := ToMap(s.files), ToMap(Do(s, op).store.files);
    assert m' == m ==> op.path in m && m[op.path] == m'[op.path];
  }

  lemma WriteRefined(s: Store, op: Op)
    requires Inv(s) && op.OpWrite? && |op.path| < MAX_PATH_LEN && Do(s, op).status == NoSpace
    ensures Inv(Do(s, op).store)
    ensures var m, m' := ToMap(s.files), ToMap(Do(s, op).store.files);
            var padded := Padded(Get(m, op.path), op.offset + |op.data|);
            m' == m[op.path := padded] && |padded| > s.maxFileSize
  {
    hide ToMap, Do;
    WriteRefines(s, op);
    WriteRefused(s, op);
  }

  // ---- results without contents ---------------------------------------------------------

  /** How long a file is and how much is allocated for it. */
  datatype Shape = Shape(size: nat, room: nat)

  function ShapeIn(files: seq<File>, path: string): Option<Shape> {
    var i := Find(files, path);
    if i < |files| then Some(Shape(files[i].size, |files[i].buffer|)) else None
  }

  /** The shape after a write up to `end` that left its file. */
  function Grown(shape: Option<Shape>, end: nat): Shape {
    if shape.None? then Shape(end, end)
    else if end <= shape.value.size then shape.value
    else if end <= shape.value.room then Shape(end, shape.value.room)
    else Shape(end, 2 * end)
  }

  /** The result of a write up to `end`, from the file's shape and the number of files. */
  function Verdict(shape: Option<Shape>, count: nat, maxFiles: nat, maxFileSize: nat,
                   data: seq<byte>, end: nat, fault: bool, memory: bool): Status
  {
    if data == [] then InvalidParam
    else if fault then Io
    else if shape.None? && (count >= maxFiles || !memory) then OutOfMemory
    else if shape.Some? && end > shape.value.room && !memory then OutOfMemory
    else if Grown(shape, end).size > maxFileSize then NoSpace
    else Ok
  }

  predicate LeavesFile(status: Status) {
    status == Ok || status == NoSpace
  }

  lemma VerdictIsStatus(s: Store, op: Op)
    requires Fits(s) && op.OpWrite?
    ensures Do(s, op).status == Verdict(ShapeIn(s.files, op.path), |s.files|, s.maxFiles, s.maxFileSize,
                                        op.data, op.offset + |op.data|, op.fault, op.memory)
  {
    NewFileSized(op.path, op.offset + |op.data|);
    hide NewFile, Put, Find;
  }

  lemma NewShape(s: Store, op: Op, path: string)
    requires Fits(s) && op.OpWrite? && |op.path| < MAX_PATH_LEN && op.data != [] && !op.fault
    requires Find(s.files, op.path) == |s.files| < s.maxFiles && op.memory
    ensures ShapeIn(Do(s, op).store.files, path)
            == if path == op.path then Some(Shape(op.offset + |op.data|, op.offset + |op.data|))
               else ShapeIn(s.files, path)
  {
    hide Do, Written, Content, Padded, Spliced;
    WriteCreates(s, op);
    WrittenFits(s, op);
    assert ([Written(s, op)] + s.files)[1..] == s.files;
  }

  lemma OldShape(s: Store, op: Op, path: string)
    requires Fits(s) && op.OpWrite? && |op.path| < MAX_PATH_LEN && op.data != [] && !op.fault
    requires Find(s.files, op.path) < |s.files| && LeavesFile(Do(s, op).status)
    ensures ShapeIn(Do(s, op).store.files, path)
            == if path == op.path then Some(Grown(ShapeIn(s.files, path), op.offset + |op.data|))
               else ShapeIn(s.files, path)
  {
    hide Put, Expand, Find;
    var i := Find(s.files, op.path);
    FindFinds(s.files, op.path);
    var files' := Do(s, op).store.files;
    OldFile(s, op);
    FindSamePaths(s.files, files', path);
    FindFinds(s.files, path);
  }

  lemma OldFile(s: Store, op: Op)
    requires Fits(s) && op.OpWrite? && op.data != [] && !op.fault
    requires Find(s.files, op.path) < |s.files| && LeavesFile(Do(s, op).status)
    ensures var files', i := Do(s, op).store.files, Find(s.files, op.path);
            var was, shape := s.files[i], Grown(ShapeIn(s.files, op.path), op.offset + |op.data|);
            && |files'| == |s.files| && (forall k :: 0 <= k < |files'| && k != i ==> files'[k] == s.files[k])
            && files'[i].path == was.path && files'[i].size == shape.size && |files'[i].buffer| == shape.room
  {
    hide Find;
  }

  /** A write's result and what it does to every file's shape follow from the shapes alone. */
  lemma ShapesFollow(s: Store, op: Op, path: string)
    requires Fits(s) && op.OpWrite? && |op.path| < MAX_PATH_LEN
    ensures var out := Do(s, op); var end := op.offset + |op.data|;
            && out.status == Verdict(ShapeIn(s.files, op.path), |s.files|, s.maxFiles, s.maxFileSize,
                                     op.data, end, op.fault, op.memory)
            && ShapeIn(out.store.files, path)
               == if path == op.path && LeavesFile(out.status) then Some(Grown(ShapeIn(s.files, path), end))
                  else ShapeIn(s.files, path)
  {
    hide Do, Find, Grown;
    VerdictIsStatus(s, op);
    WriteRefused(s, op);
    if LeavesFile(Do(s, op).status) {
      if Find(s.files, op.path) == |s.files| {
        NewShape(s, op, path);
        NewlyGrown(op.offset + |op.data|);
      } else {
        OldShape(s, op, path);
      }
    }
  }

  lemma NewlyGrown(end: nat)
    ensures Grown(None, end) == Shape(end, end)
  {
  }
}
