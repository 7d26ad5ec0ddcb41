/** The mock file store under every path, long ones included. A path of 512 characters or more is
    cut when a file is created and never found again, so one name can come to stand for several
    files, the newest in front: each name stands for a stack of contents. */
module MockStacks {
  import opened Base
  import opened MockFiles

  type Bytes = seq<byte>

  ghost predicate AllSized(files: seq<File>) {
    forall i :: 0 <= i < |files| ==> files[i].size <= |files[i].buffer|
  }

  /** The contents of the files listed under a name, in the order of the list. */
  ghost function Stack(files: seq<File>, name: string): seq<Bytes>
    requires AllSized(files)
  {
    if files == [] then []
    else (if files[0].path == name then [Content(files[0])] else []) + Stack(files[1..], name)
  }

  /** What an operation that created or changed a file left in it, over the bytes `was`. */
  function Left(op: Op, status: Status, was: Bytes): Bytes {
    match op
    case OpWrite(_, offset, data, _, _) =>
      var padded := Padded(was, offset + |data|);
      if status == Ok then Spliced(padded, offset, data) else padded
    case OpCreate(_, initial, _) => Zeros(initial)
    case _ => []
  }

  /** The operation creates a file when its path shows none. */
  predicate Pushes(op: Op, status: Status, found: bool) {
    !found && ((op.OpWrite? && LeavesFile(status)) || (op.OpCreate? && status == Ok))
  }

  /** What the stack `here` under `name` becomes, where `under` is the stack under the path. */
  function Moved(op: Op, status: Status, under: seq<Bytes>, here: seq<Bytes>, name: string): seq<Bytes>
    requires name == op.path ==> here == under
  {
    if Pushes(op, status, under != []) then
      if name == StoredPath(op.path) then [Left(op, status, [])] + here else here
    else if name != op.path || under == [] then here
    else if op.OpWrite? && LeavesFile(status) then [Left(op, status, under[0])] + under[1..]
    else if op.OpDelete? && status == Ok then under[1..]
    else here
  }

  /** The result, given what the path shows and how many files there are. Only running out of
      memory for a file that is there is left open. */
  ghost predicate Returns(op: Op, status: Status, bytes: Bytes, under: seq<Bytes>, count: nat, s: Store) {
    match op
    case OpWrite(_, offset, data, fault, memory) =>
      var was := if under == [] then [] else under[0];
      var full := under == [] && (count >= s.maxFiles || !memory);
      if data == [] then status == InvalidParam
      else if fault then status == Io
      else if full then status == OutOfMemory
      else if |Padded(was, offset + |data|)| > s.maxFileSize
      then status == NoSpace || (status == OutOfMemory && !memory)
      else status == Ok || (status == OutOfMemory && !memory)
    case OpRead(_, offset, size, fault) =>
      if size == 0 then status == InvalidParam
      else if fault then status == Io
      else if under == [] || offset >= |under[0]| then status == NotFound
      else status == Ok && bytes == Window(under[0], offset, size)
    case OpCreate(_, _, memory) =>
      status == if under != [] then Exists else if count >= s.maxFiles || !memory then OutOfMemory else Ok
    case OpDelete(_) => status == if under == [] then NotFound else Ok
  }

  // ---- stacks and the list ----------------------------------------------------------------

  lemma {:induction false} StackFinds(files: seq<File>, name: string)
    requires AllSized(files)
    ensures var i, under := Find(files, name), Stack(files, name);
            (i < |files| <==> under != []) && (i < |files| ==> under[0] == Content(files[i]) && files[i].path == name)
  {
    hide Content;
    if files != [] && files[0].path != name {
      StackFinds(files[1..], name);
    }
  }

  lemma {:induction false} StackAppends(a: seq<File>, b: seq<File>, name: string)
    requires AllSized(a)
    requires AllSized(b)
    ensures Stack(a + b, name) == Stack(a, name) + Stack(b, name)
  {
    hide Content;
    if a == [] {
      assert a + b == b;
    } else {
      StackAppends(a[1..], b, name);
      assert (a + b)[1..] == a[1..] + b;
    }
  }

  lemma {:induction false} StackOfNone(files: seq<File>, name: string)
    requires AllSized(files) && forall i :: 0 <= i < |files| ==> files[i].path != name
    ensures Stack(files, name) == []
  {
    if files != [] {
      StackOfNone(files[1..], name);
    }
  }

  /** The list around the first file of a path: before it nothing of that path. */
  lemma StackAround(files: seq<File>, path: string, name: string)
    requires AllSized(files)
    requires Find(files, path) < |files|
    ensures var i := Find(files, path);
            && AllSized(files[..i]) && AllSized(files[i + 1..])
            && files[i].path == path
            && (name == path ==> Stack(files[..i], name) == [])
            && Stack(files, name)
               == Stack(files[..i], name)
                  + (if path == name then [Content(files[i])] else []) + Stack(files[i + 1..], name)
  {
    hide Content, Stack;
    var i := Find(files, path);
    FindFinds(files, path);
    if name == path {
      StackOfNone(files[..i], name);
    }
    assert files == files[..i] + ([files[i]] + files[i + 1..]);
    StackPushed(files[i + 1..], files[i], name);
    StackAppends(files[..i], [files[i]] + files[i + 1..], name);
  }

  lemma StackReplaced(files: seq<File>, path: string, g: File, name: string)
    requires AllSized(files)
    requires Find(files, path) < |files| && g.path == path && g.size <= |g.buffer|
    ensures Stack(files[Find(files, path) := g], name)
            == var here := Stack(files, name);
               if name == path && here != [] then [Content(g)] + here[1..] else here
  {
    hide Content, Stack;
    var i := Find(files, path);
    StackAround(files, path, name);
    assert files[i := g] == files[..i] + ([g] + files[i + 1..]);
    StackPushed(files[i + 1..], g, name);
    StackAppends(files[..i], [g] + files[i + 1..], name);
  }

  lemma StackDeleted(files: seq<File>, path: string, name: string)
    requires AllSized(files)
    requires Find(files, path) < |files|
    ensures var i := Find(files, path); var rest := files[..i] + files[i + 1..];
            && AllSized(rest)
            && Stack(rest, name)
               == var here := Stack(files, name); if name == path && here != [] then here[1..] else here
  {
    hide Content, Stack;
    var i := Find(files, path);
    StackAround(files, path, name);
    StackAppends(files[..i], files[i + 1..], name);
  }

  lemma StackPushed(files: seq<File>, g: File, name: string)
    requires g.size <= |g.buffer| && AllSized(files)
    ensures Stack([g] + files, name) == (if g.path == name then [Content(g)] else []) + Stack(files, name)
  {
    assert ([g] + files)[1..] == files;
  }

  // ---- every operation --------------------------------------------------------------------

  lemma WriteMoves(s: Store, op: Op, name: string)
    requires Fits(s) && op.OpWrite?
    ensures var out, under := Do(s, op), Stack(s.files, op.path);
            && Fits(out.store) && Returns(op, out.status, out.bytes, under, |s.files|, s)
            && Stack(out.store.files, name) == Moved(op, out.status, under, Stack(s.files, name), name)
  {
    hide Do, Find, Content, Written, Padded, Spliced, Stack;
    DoKeepsFits(s, op);
    WriteRefused(s, op);
    StackFinds(s.files, op.path);
    EmptyPadded(op.offset + |op.data|);
    if op.data != [] && !op.fault && Do(s, op).status != OutOfMemory {
      if Find(s.files, op.path) == |s.files| {
        WriteCreates(s, op);
        WrittenFits(s, op);
        StackPushed(s.files, Written(s, op), name);
      } else {
        WriteFinds(s, op);
        StackReplaced(s.files, op.path, Do(s, op).store.files[Find(s.files, op.path)], name);
      }
    }
  }

  lemma EmptyPadded(n: nat)
    ensures |Padded([], n)| == n
  {
  }

  /** Every operation, under any path and with any result, returns what the stack under its path
      says and moves only that stack or the one under its cut name. */
  lemma StacksFollow(s: Store, op: Op, name: string)
    requires Fits(s)
    ensures var out, under := Do(s, op), Stack(s.files, op.path);
            && Fits(out.store) && out.store.maxFiles == s.maxFiles && out.store.maxFileSize == s.maxFileSize
            && Returns(op, out.status, out.bytes, under, |s.files|, s)
            && Stack(out.store.files, name) == Moved(op, out.status, under, Stack(s.files, name), name)
  {
    hide Find, Content, Stack, Write;
    DoKeepsFits(s, op);
    StackFinds(s.files, op.path);
    match op {
      case OpWrite(_, _, _, _, _) => WriteMoves(s, op, name);
      case OpRead(_, _, _, _) => ContentIs(s, op.path);
      case OpCreate(path, initial, memory) =>
        if Do(s, op).status == Ok {
          NewFits(path, initial);
          StackPushed(s.files, NewFile(path, initial), name);
        }
      case OpDelete(path) =>
        if Do(s, op).status == Ok {
          StackDeleted(s.files, path, name);
        }
    }
  }

  lemma ContentIs(s: Store, path: string)
    requires Fits(s)
    ensures Find(s.files, path) < |s.files| ==>
              var f := s.files[Find(s.files, path)]; Content(f) == f.buffer[..f.size] && |Content(f)| == f.size
  {
  }

  /** And so at every point of every run. */
  lemma RunFollowsStacks(maxFiles: nat, maxFileSize: nat, ops: seq<Op>, op: Op, name: string)
    ensures var s := After(Empty(maxFiles, maxFileSize), ops); var out, under := Do(s, op), Stack(s.files, op.path);
            && Returns(op, out.status, out.bytes, under, |s.files|, s)
            && Fits(out.store)
            && Stack(out.store.files, name) == Moved(op, out.status, under, Stack(s.files, name), name)
  {
    StacksFollow(After(Empty(maxFiles, maxFileSize), ops), op, name);
  }

  // ---- what a path shows ------------------------------------------------------------------

  lemma ShowsTop(s: Store, name: string)
    requires Fits(s)
    ensures Value(s.files, name)
            == var stack := Stack(s.files, name); if stack == [] then None else Some(stack[0])
  {
    hide Stack, Content;
    StackFinds(s.files, name);
  }

  lemma LongShowsNothing(s: Store, path: string)
    requires Fits(s) && |path| >= MAX_PATH_LEN
    ensures Stack(s.files, path) == []
  {
    StoredIsShort(s, path);
    StackFinds(s.files, path);
  }

  /** Under a short path no operation, whatever its result, changes what another path shows. */
  lemma ShortKeepsOthers(s: Store, op: Op, name: string)
    requires Fits(s) && |op.path| < MAX_PATH_LEN && name != op.path
    ensures Fits(Do(s, op).store) && Value(Do(s, op).store.files, name) == Value(s.files, name)
  {
    hide Do, Stack, Value;
    StacksFollow(s, op, name);
    ShowsTop(s, name);
    ShowsTop(Do(s, op).store, name);
  }

  /** An operation under any path leaves what every other path shows as it was if and only if its
      own path is short, or it creates no file, or the cut name already showed the very bytes of
      the file it creates. */
  lemma IsolatedExactly(s: Store, op: Op)
    requires Fits(s)
    ensures var out := Do(s, op);
            && Fits(out.store)
            && ((forall p :: p != op.path ==> Value(out.store.files, p) == Value(s.files, p))
                <==> |op.path| < MAX_PATH_LEN
                     || out.store == s
                     || Value(s.files, StoredPath(op.path)) == Some(Left(op, out.status, [])))
  {
    hide Do, Stack, Value, Left;
    var out := Do(s, op);
    DoKeepsFits(s, op);
    if |op.path| < MAX_PATH_LEN {
      forall p | p != op.path
        ensures Value(out.store.files, p) == Value(s.files, p)
      {
        ShortKeepsOthers(s, op, p);
      }
    } else {
      LongShowsNothing(s, op.path);
      LongPathDoes(s, op);
      forall p
        ensures Value(out.store.files, p)
                == if out.store != s && p == StoredPath(op.path) then Some(Left(op, out.status, []))
                   else Value(s.files, p)
      {
        StacksFollow(s, op, p);
        ShowsTop(s, p);
        ShowsTop(out.store, p);
      }
      assert StoredPath(op.path) != op.path;
    }
  }

  /** A successful write leaves every other path alone if and only if its own path is short or
      the cut name already showed the very bytes written. */
  lemma WritesAreIsolatedExactly(s: Store, path: string, offset: nat, data: seq<byte>)
    requires Fits(s) && Write(s, path, offset, data, false, true).1 == Ok
    ensures var s' := Write(s, path, offset, data, false, true).0;
            && Fits(s')
            && ((forall p :: p != path ==> Value(s'.files, p) == Value(s.files, p))
                <==> |path| < MAX_PATH_LEN
                     || Value(s.files, path[..MAX_PATH_LEN - 1]) == Some(Zeros(offset) + data))
  {
    hide Write, Value, Left;
    var op := OpWrite(path, offset, data, false, true);
    IsolatedExactly(s, op);
    LeftIsData(op);
    if |path| >= MAX_PATH_LEN {
      LongPathDoes(s, op);
    }
  }

  lemma LeftIsData(op: Op)
    requires op.OpWrite?
    ensures Left(op, Ok, []) == Zeros(op.offset) + op.data
  {
    assert Padded([], op.offset + |op.data|)[..op.offset] == Zeros(op.offset);
  }

  /** A successful write can be read back under its own path if and only if that is short; under
      the cut name it can always be read back. */
  lemma WrittenReadsBack(s: Store, path: string, offset: nat, data: seq<byte>)
    requires Fits(s) && Write(s, path, offset, data, false, true).1 == Ok
    ensures var s' := Write(s, path, offset, data, false, true).0;
            && Fits(s')
            && (Read(s', path, offset, |data|, false) == (Ok, data) <==> |path| < MAX_PATH_LEN)
            && Read(s', StoredPath(path), offset, |data|, false) == (Ok, data)
  {
    hide Write, Read, Stack, Left;
    var op := OpWrite(path, offset, data, false, true);
    var s' := Do(s, op).store;
    var name := StoredPath(path);
    StacksFollow(s, op, name);
    StacksFollow(s', OpRead(name, offset, |data|, false), name);
    if |path| >= MAX_PATH_LEN {
      LongShowsNothing(s, path);
      LongShowsNothing(s', path);
      StacksFollow(s', OpRead(path, offset, |data|, false), path);
    }
    var was := if Stack(s.files, path) == [] then [] else Stack(s.files, path)[0];
    assert Stack(s'.files, name)[0] == Left(op, Ok, was);
    DataIsInside(op, was);
  }

  lemma DataIsInside(op: Op, was: Bytes)
    requires op.OpWrite? && op.data != []
    ensures var left := Left(op, Ok, was);
            op.offset < |left| && Window(left, op.offset, |op.data|) == op.data
  {
    var left := Left(op, Ok, was);
    assert left[op.offset..op.offset + |op.data|] == op.data;
  }

  /** What a successful write under a long path does: it always creates a file, which shows under
      the cut name, in front of any file that was there. */
  lemma LongPathWrites(s: Store, path: string, offset: nat, data: seq<byte>)
    requires Fits(s) && Write(s, path, offset, data, false, true).1 == Ok && |path| >= MAX_PATH_LEN
    ensures var s' := Write(s, path, offset, data, false, true).0; var name := path[..MAX_PATH_LEN - 1];
            && Fits(s')
            && Stack(s'.files, name) == [Zeros(offset) + data] + Stack(s.files, name)
            && forall p :: p != name ==> Stack(s'.files, p) == Stack(s.files, p)
  {
    hide Write, Stack, Left;
    var op := OpWrite(path, offset, data, false, true);
    LongShowsNothing(s, path);
    LeftIsData(op);
    forall p
      ensures Fits(Do(s, op).store)
      ensures Stack(Do(s, op).store.files, p) == Moved(op, Ok, [], Stack(s.files, p), p)
    {
      StacksFollow(s, op, p);
    }
  }

  /** Three ways in which one path changes what another shows: a write refused for its size, a
      creation, and a deletion after that, which shows the first file again. */
  lemma LongPathsHide(path: string, b: byte)
    requires |path| >= MAX_PATH_LEN
    ensures var name := path[..MAX_PATH_LEN - 1]; var s := Store([File(name, [b], 1, 0)], 2, 1);
            var refused := Do(s, OpWrite(path, 0, [b, b], false, true));
            var created := Do(s, OpCreate(path, 1, true));
            && Inv(s) && Value(s.files, name) == Some([b])
            && refused.status == NoSpace && Fits(refused.store) && Value(refused.store.files, name) == Some([0, 0])
            && created.status == Ok && Fits(created.store) && Value(created.store.files, name) == Some([0])
            && var deleted := Do(created.store, OpDelete(name));
               deleted.status == Ok && Fits(deleted.store) && Value(deleted.store.files, name) == Some([b])
  {
    hide Do, Stack;
    var name := path[..MAX_PATH_LEN - 1];
    var s := Store([File(name, [b], 1, 0)], 2, 1);
    var write, create := OpWrite(path, 0, [b, b], false, true), OpCreate(path, 1, true);
    assert [0, 0] == Padded([], 2) && [0] == Zeros(1);
    OneFile(name, b);
    LongShowsNothing(s, path);
    StacksFollow(s, write, name);
    StacksFollow(s, create, name);
    var created := Do(s, create).store;
    StacksFollow(created, OpDelete(name), name);
    ShowsTop(s, name);
    ShowsTop(Do(s, write).store, name);
    ShowsTop(created, name);
    ShowsTop(Do(created, OpDelete(name)).store, name);
  }

  lemma OneFile(name: string, b: byte)
    ensures Stack([File(name, [b], 1, 0)], name) == [[b]]
  {
    var f := File(name, [b], 1, 0);
    assert Content(f) == [b];
    StackPushed([], f, name);
  }

  /** The second case of WritesAreIsolatedExactly happens: writing, under a long path, what its
      cut name shows already. */
  lemma SameBytesUnderCutName(path: string, b: byte)
    requires |path| >= MAX_PATH_LEN
    ensures var s := Store([File(path[..MAX_PATH_LEN - 1], [b], 1, 0)], 2, 1);
            var s' := Write(s, path, 0, [b], false, true).0;
            && Inv(s) && Write(s, path, 0, [b], false, true).1 == Ok && Fits(s')
            && forall p :: p != path ==> Value(s'.files, p) == Value(s.files, p)
  {
    hide Write, Stack;
    var name := path[..MAX_PATH_LEN - 1];
    var s := Store([File(name, [b], 1, 0)], 2, 1);
    LongShowsNothing(s, path);
    EmptyPadded(1);
    StacksFollow(s, OpWrite(path, 0, [b], false, true), name);
    OneFile(name, b);
    ShowsTop(s, name);
    assert Zeros(0) + [b] == [b] == Content(s.files[0]);
    WritesAreIsolatedExactly(s, path, 0, [b]);
  }

  // ---- refusals for size ------------------------------------------------------------------

  /** How many bytes a path shows. */
  ghost function Length(s: Store, path: string): nat
    requires Fits(s)
  {
    var stack := Stack(s.files, path);
    if stack == [] then 0 else |stack[0]|
  }

  /** The operation neither deletes the file shown under `path` nor, through a longer path, puts
      another in front of it. */
  predicate LeavesShown(op: Op, path: string) {
    op != OpDelete(path) && (StoredPath(op.path) == path ==> op.path == path)
  }

  lemma WritesNeverShorten(op: Op, status: Status, was: Bytes)
    requires op.OpWrite?
    ensures |Left(op, status, was)| >= |was| && |Left(op, status, was)| == |Padded(was, op.offset + |op.data|)|
  {
  }

  lemma NeverShorter(s: Store, op: Op, path: string)
    requires Fits(s) && LeavesShown(op, path)
    ensures Fits(Do(s, op).store) && Length(s, path) <= Length(Do(s, op).store, path)
  {
    hide Do, Stack, Left;
    StacksFollow(s, op, path);
    var under := Stack(s.files, op.path);
    if op.OpWrite? && under != [] {
      WritesNeverShorten(op, Do(s, op).status, under[0]);
    }
  }

  lemma {:induction false} NeverShorterAfter(s: Store, ops: seq<Op>, path: string)
    requires Fits(s) && forall i :: 0 <= i < |ops| ==> LeavesShown(ops[i], path)
    ensures Length(s, path) <= Length(After(s, ops), path)
    decreases |ops|
  {
    hide Do, Length;
    if ops != [] {
      var last := |ops| - 1;
      NeverShorterAfter(s, ops[..last], path);
      NeverShorter(After(s, ops[..last]), ops[last], path);
    }
  }

  lemma RefusalIsTooLong(s: Store, op: Op)
    requires Fits(s) && op.OpWrite? && |op.path| < MAX_PATH_LEN && Do(s, op).status == NoSpace
    ensures Fits(Do(s, op).store) && Length(Do(s, op).store, op.path) > s.maxFileSize
  {
    hide Do, Stack, Left;
    StacksFollow(s, op, op.path);
    var under := Stack(s.files, op.path);
    WritesNeverShorten(op, NoSpace, if under == [] then [] else under[0]);
  }

  lemma TooLongRefuses(s: Store, op: Op)
    requires Fits(s) && op.OpWrite? && Length(s, op.path) > s.maxFileSize
    ensures var status := Do(s, op).status;
            status != Ok && (op.data != [] && !op.fault && op.memory ==> status == NoSpace)
  {
    hide Do, Stack, Left;
    StacksFollow(s, op, op.path);
    WritesNeverShorten(op, Ok, Stack(s.files, op.path)[0]);
  }

  /** Once a write to a short path was refused for its size, no write to it ever succeeds again,
      of however few bytes, as long as its file is neither deleted nor hidden. */
  lemma RefusedForGood(s: Store, op: Op, ops: seq<Op>, again: Op)
    requires Fits(s) && op.OpWrite? && again.OpWrite? && op.path == again.path
    requires |op.path| < MAX_PATH_LEN && Do(s, op).status == NoSpace
    requires forall i :: 0 <= i < |ops| ==> LeavesShown(ops[i], op.path)
    ensures Fits(Do(s, op).store)
    ensures var status := Do(After(Do(s, op).store, ops), again).status;
            && status != Ok
            && (again.data != [] && !again.fault && again.memory ==> status == NoSpace)
  {
    hide Do, Length;
    RefusalIsTooLong(s, op);
    DoKeepsFits(s, op);
    NeverShorterAfter(Do(s, op).store, ops, op.path);
    TooLongRefuses(After(Do(s, op).store, ops), again);
  }
}
