/** The store of src/storage/mock_storage.c as a linked list of heap objects, changed in place. */
module MockStorage {
  import opened Base
  import opened MockFiles

  class FileNode {
    const path: string
    var data: array<byte>
    var size: nat
    var next: FileNode?
    ghost var moved: nat

    /** A zero-filled file of `size` bytes, put before `next`. */
    constructor (path: string, size: nat, next: FileNode?)
      ensures Is(NewFile(path, size)) && this.next == next && fresh(data)
    {
      this.path := StoredPath(path);
      this.data := new byte[size](_ => 0);
      this.size := size;
      this.next := next;
      this.moved := 0;
      new;
      assert data[..] == Zeros(size);
    }

    ghost predicate Is(f: File)
      reads this, data
    {
      path == f.path && data[..] == f.buffer && size == f.size && moved == f.moved
    }

    method ZeroFrom(lo: nat, hi: nat)
      requires lo <= hi <= data.Length
      modifies data
      ensures data[..] == old(data[..lo]) + Zeros(hi - lo) + old(data[hi..])
    {
      var i := lo;
      while i < hi
        invariant lo <= i <= hi
        invariant data[..lo] == old(data[..lo]) && data[hi..] == old(data[hi..])
        invariant forall k :: lo <= k < i ==> data[k] == 0
      {
        data[i] := 0;
        i := i + 1;
      }
      assert data[..] == data[..lo] + data[lo..hi] + data[hi..];
    }

    method Expand(newSize: nat, memory: bool, ghost was: File) returns (ok: bool)
      requires Is(was) && size <= data.Length
      modifies this`data, this`size, this`moved, data
      ensures ok == (newSize <= |was.buffer| || memory)
      ensures Is(if ok then MockFiles.Expand(was, newSize) else was)
      ensures data == old(data) || fresh(data)
    {
      if newSize <= data.Length {
        if newSize > size {
          ZeroFrom(size, newSize);
          size := newSize;
        }
        return true;
      }
      if !memory {
        return false;
      }
      var grown := new byte[2 * newSize](_ => 0);
      var old' := data;
      var i := 0;
      while i < size
        modifies grown
        invariant 0 <= i <= size
        invariant grown[..i] == old'[..i]
        invariant forall k :: i <= k < grown.Length ==> grown[k] == 0
      {
        grown[i] := old'[i];
        i := i + 1;
      }
      assert grown[..] == was.buffer[..size] + Zeros(2 * newSize - size);
      data := grown;
      moved := moved + |was.buffer|;
      size := newSize;
      return true;
    }

    /** The bytes from `offset`, then zeros. */
    method CopyOut(offset: nat, buffer: array<byte>, count: nat, ghost was: File)
      requires Is(was) && offset <= size <= data.Length && count <= buffer.Length && buffer != data
      modifies buffer
      ensures buffer[..] == Window(Content(was), offset, count) + old(buffer[count..])
    {
      var readSize := if offset + count > size then size - offset else count;
      var i := 0;
      while i < count
        invariant 0 <= i <= count
        invariant forall k :: 0 <= k < i ==> buffer[k] == if k < readSize then was.buffer[offset + k] else 0
        invariant buffer[count..] == old(buffer[count..])
      {
        buffer[i] := if i < readSize then data[offset + i] else 0;
        i := i + 1;
      }
      assert buffer[..count] == Window(Content(was), offset, count);
      assert buffer[..] == buffer[..count] + buffer[count..];
    }

    method Put(offset: nat, bytes: seq<byte>, ghost was: File)
      requires Is(was) && offset + |bytes| <= data.Length
      modifies data
      ensures Is(MockFiles.Put(was, offset, bytes))
    {
      var i := 0;
      while i < |bytes|
        invariant 0 <= i <= |bytes|
        invariant data[..offset + i] == was.buffer[..offset] + bytes[..i]
        invariant data[offset + i..] == was.buffer[offset + i..]
      {
        data[offset + i] := bytes[i];
        i := i + 1;
      }
      assert data[..] == data[..offset + i] + data[offset + i..];
    }
  }

  function Without<T>(s: seq<T>, at: nat): (r: seq<T>)
    requires at < |s|
    ensures |r| == |s| - 1
    ensures forall i :: 0 <= i < |r| ==> r[i] == s[if i < at then i else i + 1]
  {
    s[..at] + s[at + 1..]
  }

  class MockStore {
    var files: FileNode?
    var fileCount: nat
    const maxFiles: nat
    const maxFileSize: nat
    ghost var spine: seq<FileNode>
    ghost var model: seq<File>
    ghost var Repr: set<object>

    /** The node at a place in the list; null past its end. */
    ghost function NodeAt(i: nat): FileNode?
      reads this
    {
      if i < |spine| then spine[i] else null
    }

    ghost predicate Valid()
      reads this, Repr
      ensures Valid() ==> this in Repr
    {
      && Sound()
      && fileCount == |spine|
      && files == NodeAt(0)
      && (forall i {:trigger spine[i].next} :: 0 <= i < |spine| ==> spine[i].next == NodeAt(i + 1))
    }

    /** The nodes hold the model's files and share nothing, however they are linked. */
    ghost predicate Sound()
      reads this, Repr
    {
      && this in Repr
      && |spine| == |model|
      && (forall i :: 0 <= i < |spine| ==> spine[i] in Repr && spine[i].data in Repr)
      && (forall i :: 0 <= i < |spine| ==> spine[i].Is(model[i]) && model[i].size <= |model[i].buffer|)
      && (forall i, j :: 0 <= i < j < |spine| ==> spine[i] != spine[j] && spine[i].data != spine[j].data)
    }

    ghost function View(): Store
      reads this
    {
      Store(model, maxFiles, maxFileSize)
    }

    constructor (maxFiles: nat, maxFileSize: nat)
      ensures Valid() && View() == Empty(maxFiles, maxFileSize) && Repr == {this}
    {
      this.maxFiles, this.maxFileSize := maxFiles, maxFileSize;
      files, fileCount := null, 0;
      spine, model, Repr := [], [], {this};
    }

    method FindFile(path: string) returns (node: FileNode?, ghost at: nat)
      requires Valid()
      ensures at == Find(model, path)
      ensures if at == |spine| then node == null else node == spine[at]
    {
      node, at := files, 0;
      assert model[0..] == model;
      while node != null
        invariant at <= |spine| && node == NodeAt(at)
        invariant Find(model, path) == at + Find(model[at..], path)
        decreases |spine| - at
      {
        assert spine[at].Is(model[at]);
        if node.path == path {
          return;
        }
        assert model[at..][1..] == model[at + 1..];
        node, at := node.next, at + 1;
      }
    }

    /** At the head of the list, if the limit and the allocator allow it. */
    method CreateNewFile(path: string, size: nat, memory: bool) returns (node: FileNode?)
      requires Valid()
      modifies this`files, this`fileCount, this`spine, this`model, this`Repr
      ensures Valid() && fresh(Repr - old(Repr)) && old(Repr) <= Repr
      ensures if old(|spine|) >= maxFiles || !memory
              then node == null && spine == old(spine) && model == old(model)
              else fresh(node) && fresh(node.data) && spine == [node] + old(spine)
                   && model == [NewFile(path, size)] + old(model)
    {
      hide NewFile;
      if fileCount >= maxFiles || !memory {
        return null;
      }
      NewFileSized(path, size);
      var file := new FileNode(path, size, files);
      files := file;
      fileCount := fileCount + 1;
      spine := [file] + spine;
      model := [NewFile(path, size)] + model;
      Repr := Repr + {file, file.data};
      node := file;
    }

    method RemoveFile(path: string) returns (status: Status)
      requires Valid()
      modifies Repr
      ensures Valid() && (View(), status) == Delete(old(View()), path)
      ensures Repr == old(Repr)
    {
      var previous: FileNode?, current := null, files;
      ghost var at := 0;
      assert model[0..] == model;
      while current != null
        invariant at <= |spine| && current == NodeAt(at)
        invariant previous == (if at == 0 then null else spine[at - 1])
        invariant Find(model, path) == at + Find(model[at..], path)
        invariant Valid() && unchanged(this) && forall n :: n in spine ==> unchanged(n)
        decreases |spine| - at
      {
        assert spine[at].Is(model[at]);
        if current.path == path {
          Unlink(previous, current, at);
          return Ok;
        }
        assert model[at..][1..] == model[at + 1..];
        previous, current, at := current, current.next, at + 1;
      }
      return NotFound;
    }

    method Unlink(previous: FileNode?, current: FileNode, ghost at: nat)
      requires Valid() && at < |spine| && current == spine[at]
      requires previous == if at == 0 then null else spine[at - 1]
      modifies Repr
      ensures Valid() && Repr == old(Repr)
      ensures spine == Without(old(spine), at) && model == Without(old(model), at)
    {
      if previous == null {
        UnlinkFirst();
      } else {
        UnlinkAfter(previous, current, at);
      }
    }

    method UnlinkFirst()
      requires Valid() && spine != []
      modifies this
      ensures Valid() && Repr == old(Repr) && spine == old(spine[1..]) && model == old(model[1..])
    {
      assert spine[0].next == NodeAt(1);
      files := files.next;
      fileCount := fileCount - 1;
      spine := spine[1..];
      model := model[1..];
    }

    method UnlinkAfter(previous: FileNode, current: FileNode, ghost at: nat)
      requires Valid() && 0 < at < |spine| && current == spine[at] && previous == spine[at - 1]
      modifies this, previous`next
      ensures Valid() && Repr == old(Repr)
      ensures spine == Without(old(spine), at) && model == Without(old(model), at)
    {
      assert spine[at].next == NodeAt(at + 1);
      previous.next := current.next;
      Forget(at);
    }

    method Forget(ghost at: nat)
      requires Sound() && 0 < at < |spine| == fileCount && files == NodeAt(0)
      requires forall i {:trigger spine[i].next} :: 0 <= i < |spine| ==>
                 spine[i].next == NodeAt(if i == at - 1 then at + 1 else i + 1)
      modifies this
      ensures Valid() && Repr == old(Repr)
      ensures spine == Without(old(spine), at) && model == Without(old(model), at)
    {
      ghost var nodes, files' := spine, model;
      fileCount := fileCount - 1;
      spine := Without(nodes, at);
      model := Without(files', at);
    }

    /** `fault` is an injected error; `memory` is false when an allocation fails. */
    method WriteSync(path: string, offset: nat, data: seq<byte>, fault: bool, memory: bool) returns (status: Status)
      requires Valid()
      modifies Repr
      ensures Valid() && (View(), status) == Write(old(View()), path, offset, data, fault, memory)
      ensures fresh(Repr - old(Repr))
    {
      if |data| == 0 {
        return InvalidParam;
      }
      if fault {
        return Io;
      }
      var node, at := FindFile(path);
      if node == null {
        node := CreateNewFile(path, offset + |data|, memory);
        if node == null {
          return OutOfMemory;
        }
        at := 0;
      }
      assert node == spine[at];
      status := WriteInto(node, at, offset, data, memory);
    }

    method WriteInto(node: FileNode, ghost at: nat, offset: nat, data: seq<byte>, memory: bool) returns (status: Status)
      requires Valid() && at < |spine| && node == spine[at]
      modifies node, node.data, this`model, this`Repr
      ensures Valid() && spine == old(spine) && fresh(Repr - old(Repr))
      ensures (model, status) == WriteAt(old(View()), at, offset, data, memory)
    {
      hide MockFiles.Expand, MockFiles.Put;
      assert node.Is(model[at]);
      ExpandSized(model[at], offset + |data|);
      if offset + |data| > node.size {
        var ok := ExpandFile(node, at, offset + |data|, memory);
        if !ok {
          return OutOfMemory;
        }
      }
      assert node.Is(model[at]);
      assert model == old(model)[at := model[at]];
      if node.size > maxFileSize {
        return NoSpace;
      }
      ghost var g := model[at];
      CopyInto(node, at, offset, data);
      assert model == old(model)[at := MockFiles.Put(g, offset, data)];
      return Ok;
    }

    method ExpandFile(node: FileNode, ghost at: nat, newSize: nat, memory: bool) returns (ok: bool)
      requires Valid() && at < |spine| && node == spine[at]
      modifies node`data, node`size, node`moved, node.data, this`model, this`Repr
      ensures Valid() && fresh(Repr - old(Repr)) && (node.data == old(node.data) || fresh(node.data))
      ensures ok == (newSize <= |old(model[at]).buffer| || memory)
      ensures model == if ok then old(model)[at := MockFiles.Expand(old(model[at]), newSize)] else old(model)
    {
      hide MockFiles.Expand;
      ghost var f := model[at];
      ExpandSized(f, newSize);
      ok := node.Expand(newSize, memory, f);
      if ok {
        model := model[at := MockFiles.Expand(f, newSize)];
      }
      Repr := Repr + {node.data};
    }

    method CopyInto(node: FileNode, ghost at: nat, offset: nat, data: seq<byte>)
      requires Valid() && at < |spine| && node == spine[at] && offset + |data| <= |model[at].buffer|
      modifies node.data, this`model
      ensures Valid() && model == old(model)[at := MockFiles.Put(old(model[at]), offset, data)]
    {
      ghost var f := model[at];
      node.Put(offset, data, f);
      model := model[at := MockFiles.Put(f, offset, data)];
    }

    method ReadSync(path: string, offset: nat, buffer: array<byte>, size: nat, fault: bool) returns (status: Status)
      requires Valid() && size <= buffer.Length && buffer !in Repr
      modifies buffer
      ensures Valid()
      ensures var (st, bytes) := Read(View(), path, offset, size, fault);
              status == st && buffer[..] == if st == Ok then bytes + old(buffer[size..]) else old(buffer[..])
    {
      if size == 0 {
        return InvalidParam;
      }
      if fault {
        return Io;
      }
      var node, at := FindFile(path);
      if node == null {
        return NotFound;
      }
      assert spine[at].Is(model[at]);
      if offset >= node.size {
        return NotFound;
      }
      node.CopyOut(offset, buffer, size, model[at]);
      return Ok;
    }

    method CreateFile(path: string, initialSize: nat, memory: bool) returns (status: Status)
      requires Valid()
      modifies this
      ensures Valid() && (View(), status) == Create(old(View()), path, initialSize, memory)
      ensures fresh(Repr - old(Repr))
    {
      var found, at := FindFile(path);
      if found != null {
        return Exists;
      }
      var node := CreateNewFile(path, initialSize, memory);
      return if node == null then OutOfMemory else Ok;
    }

    method DeleteFile(path: string) returns (status: Status)
      requires Valid()
      modifies Repr
      ensures Valid() && (View(), status) == Delete(old(View()), path)
      ensures Repr == old(Repr)
    {
      status := RemoveFile(path);
    }
  }
}
