/** What escrever_arquivo and ler_arquivo promise together: in a consistent
    system, cat after a successful write prints exactly what was written. */
module ContentLemmas {
  import opened Layout
  import opened Bitmap
  import opened Permissions
  import opened Dirent
  import opened State
  import opened Directory
  import opened Content

  /** In a consistent system a live inode's pointers are marked and distinct. */
  lemma InvOwnPtrsSound(fs: FS, id: nat)
    requires Inv(fs) && id < MaxInodes && Live(fs, id)
    ensures OwnPtrsSound(fs, id)
  {
    var p := fs.inodes[id].ptrs;
    forall k | 0 <= k < MaxPointers && p[k] != 0
      ensures Bit(fs.bitmap, p[k])
    {
      assert Referenced(fs, p[k]);
    }
  }

  lemma TruncateSound(fs: FS, id: nat, from: nat)
    requires Wf(fs) && id < MaxInodes && from <= MaxPointers && OwnPtrsSound(fs, id)
    ensures OwnPtrsSound(Truncate(fs, id, from), id)
  {
    var r := Truncate(fs, id, from);
    var p, q := fs.inodes[id].ptrs, r.inodes[id].ptrs;
    forall k | 0 <= k < MaxPointers && q[k] != 0
      ensures Bit(r.bitmap, q[k])
    {
      assert k < from && q[k] == p[k];
      assert !HeldBy(p, from, MaxPointers, q[k]);
    }
  }

  /** A block marked before the write and not the file's own is neither
      released nor handed to the file, so it keeps its bytes. */
  lemma WriteSparesOthers(fs: FS, id: nat, content: seq<byte>, b: nat)
    requires Wf(fs) && id < MaxInodes && BlocksNeeded(|content|) <= MaxPointers
    requires 0 < b < MaxBlocks && Bit(fs.bitmap, b)
    requires forall k | 0 <= k < MaxPointers :: fs.inodes[id].ptrs[k] != b
    ensures WriteInode(fs, id, content).fs.blocks[b] == fs.blocks[b]
  {
    var needed := BlocksNeeded(|content|);
    var fs1 := Truncate(fs, id, needed);
    var p := fs.inodes[id].ptrs;
    assert !HeldBy(p, needed, MaxPointers, b);
    FillBitmap(fs1, id, content, 0, needed);
    FillUntouched(fs1, id, content, 0, needed);
    var f := Fill(fs1, id, content, 0, needed);
    forall k | 0 <= k < needed
      ensures f.fs.inodes[id].ptrs[k] != b
    {
      assert fs1.inodes[id].ptrs[k] == p[k];
    }
  }

  /** When the write succeeds, slot k's block starts with chunk k. */
  lemma WriteStores(fs: FS, id: nat, content: seq<byte>)
    requires Wf(fs) && id < MaxInodes && BlocksNeeded(|content|) <= MaxPointers
    requires OwnPtrsSound(fs, id)
    ensures var r := WriteInode(fs, id, content);
      r.result.Ok? ==> forall k | 0 <= k < BlocksNeeded(|content|) ::
        r.fs.blocks[r.fs.inodes[id].ptrs[k]][..|Chunk(content, k)|] == Chunk(content, k)
  {
    var needed := BlocksNeeded(|content|);
    TruncateSound(fs, id, needed);
    FillContent(Truncate(fs, id, needed), id, content, 0, needed);
  }

  /** The write leaves the working directory's entry block alone, so the
      name still resolves to the same inode. */
  lemma WriteKeepsLookup(fs: FS, id: nat, name: seq<byte>, content: seq<byte>)
    requires Inv(fs) && fs.inodes[fs.cwd].kind == KindDir
    requires Lookup(fs, fs.cwd, name) == id && 0 < id < MaxInodes && fs.inodes[id].kind == KindFile
    requires BlocksNeeded(|content|) <= MaxPointers
    ensures Lookup(WriteInode(fs, id, content).fs, fs.cwd, name) == id
  {
    var cwd := fs.cwd;
    var r := WriteInode(fs, id, content);
    var d := fs.inodes[cwd].ptrs[0];
    assert Live(fs, cwd) && Live(fs, id) && id != cwd;
    assert Referenced(fs, d);
    forall k | 0 <= k < MaxPointers
      ensures fs.inodes[id].ptrs[k] != d
    {
    }
    WriteSparesOthers(fs, id, content, d);
    assert DirTable(r.fs, cwd) == DirTable(fs, cwd);
  }

  /** cat of an inode whose first slots start with the chunks of `content`,
      with size |content|, gives `content` back. */
  lemma EmitChunks(fs: FS, n: Inode, content: seq<byte>)
    requires Wf(fs) && InodeWf(n) && n.size == |content| && BlocksNeeded(|content|) <= MaxPointers
    requires forall k | 0 <= k < BlocksNeeded(|content|) :: n.ptrs[k] != 0
    requires forall k | 0 <= k < BlocksNeeded(|content|) ::
      fs.blocks[n.ptrs[k]][..|Chunk(content, k)|] == Chunk(content, k)
    ensures Emit(fs, n.ptrs, 0, n.size) == Contents(content, false)
  {
    var needed := BlocksNeeded(|content|);
    var q := n.ptrs;
    var c := Emit(fs, q, 0, |content|);
    assert !c.cut;
    assert |c.data| == |content|;
    forall j | 0 <= j < |content|
      ensures c.data[j] == content[j]
    {
      var k := j / BlockSize;
      assert k < needed;
      assert c.data[j] == fs.blocks[q[k]][j % BlockSize];
      assert Chunk(content, k)[j % BlockSize] == content[j];
    }
  }

  /** Read-after-write: in a consistent system whose working directory is a
      directory, a successful write of `content` to a regular file followed
      by cat, by a user allowed to read it, yields `content` with no lost-data
      warning. */
  lemma ReadAfterWrite(fs: FS, who: Identity, name: seq<byte>, content: seq<byte>)
    requires Inv(fs) && fs.inodes[fs.cwd].kind == KindDir
    requires var id := Lookup(fs, fs.cwd, name);
      0 < id < MaxInodes && fs.inodes[id].kind == KindFile && Can(who, fs.inodes[id], PermR)
    requires Write(fs, who, name, content).result.Ok?
    ensures Read(Write(fs, who, name, content).fs, who, name) == Ok(Contents(content, false))
  {
    var id := Lookup(fs, fs.cwd, name);
    var r := WriteInode(fs, id, content);
    assert Write(fs, who, name, content) == r;
    WriteKeepsLookup(fs, id, name, content);
    InvOwnPtrsSound(fs, id);
    WriteStores(fs, id, content);
    EmitChunks(r.fs, r.fs.inodes[id], content);
  }
}
