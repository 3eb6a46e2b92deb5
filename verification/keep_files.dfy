/** deletar_arquivo, escrever_arquivo (on a regular file) and
    copiar_arquivo keep the consistency invariant; a copy that runs out of
    blocks after taking one, which only a state outside it allows, breaks (c). */
module FileInvariants {
  import opened Layout
  import opened Bitmap
  import opened Permissions
  import opened Dirent
  import opened State
  import opened Directory
  import opened Content
  import opened Files
  import opened AllocFacts
  import opened DirFacts
  import opened Capacity

  lemma DeleteKeepsInv(fs: FS, who: Identity, name: seq<byte>)
    requires Inv(fs)
    ensures Inv(Delete(fs, who, name).fs)
  {
    if Can(who, fs.inodes[fs.cwd], PermW) && Remove(fs, who, fs.cwd, name).result.Ok? {
      var rem := Remove(fs, who, fs.cwd, name);
      RemoveKeepsInv(fs, who, fs.cwd, name);
      var id := rem.result.value;
      if id < MaxInodes {
        var r := Delete(fs, who, name).fs;
        FreeWithBlocks(rem.fs, r, id);
        DirsFrame(rem.fs, r, MaxInodes);
      }
    }
  }

  /** A block a live record other than n points at differs from a block not
      marked. Used to see that fresh blocks are no directory's entry block. */
  lemma UnmarkedIsNobodys(fs: FS, n: nat, b: nat)
    requires Wf(fs) && AllocOk(fs) && n < MaxInodes && Live(fs, n) && 2 <= b < MaxBlocks && !Bit(fs.bitmap, b)
    ensures forall k | 0 <= k < MaxPointers :: fs.inodes[n].ptrs[k] != b
  {
    if exists k | 0 <= k < MaxPointers :: fs.inodes[n].ptrs[k] == b {
      assert Referenced(fs, b);
    }
  }

  /** One release round of the write keeps the invariant for a file. */
  lemma TruncateKeepsInv(fs: FS, id: nat, from: nat)
    requires Inv(fs) && id < MaxInodes && fs.inodes[id].kind == KindFile && from <= MaxPointers
    ensures Inv(Truncate(fs, id, from))
    decreases MaxPointers - from
  {
    if from < MaxPointers {
      var p := fs.inodes[id].ptrs[from];
      if p != 0 {
        var fs1 := SetPtr(fs.(bitmap := Release(fs.bitmap, p)), id, from, 0);
        Detach(fs, fs1, id, from);
        DirsFrame(fs, fs1, MaxInodes);
        TruncateKeepsInv(fs1, id, from + 1);
      } else {
        TruncateKeepsInv(fs, id, from + 1);
      }
    }
  }

  /** One allocate-or-reuse round of the write keeps the invariant for a
      file: the block written is the file's own, never a directory's. */
  lemma PlaceKeepsInv(fs: FS, id: nat, content: seq<byte>, i: nat)
    requires Inv(fs) && id < MaxInodes && fs.inodes[id].kind == KindFile
    requires i < MaxPointers && i * BlockSize <= |content|
    ensures Inv(Place(fs, id, content, i).fs)
  {
    var r := Place(fs, id, content, i);
    if r.ok {
      var p := fs.inodes[id].ptrs;
      var b := r.fs.inodes[id].ptrs[i];
      if p[i] == 0 {
        Attach(fs, r.fs, id, i, b);
        forall n | 0 <= n < MaxInodes && HasDirBlock(fs, n)
          ensures fs.inodes[n].ptrs[0] != b
        {
          UnmarkedIsNobodys(fs, n, b);
        }
      } else {
        PointersAlone(fs, r.fs);
        forall n | 0 <= n < MaxInodes && HasDirBlock(fs, n)
          ensures fs.inodes[n].ptrs[0] != b
        {
          assert Live(fs, id) && Live(fs, n) && n != id;
        }
      }
      DirsFrame(fs, r.fs, MaxInodes);
    }
  }

  lemma {:induction false} FillKeepsInv(fs: FS, id: nat, content: seq<byte>, i: nat, needed: nat)
    requires Inv(fs) && id < MaxInodes && fs.inodes[id].kind == KindFile
    requires i <= needed <= MaxPointers && |content| <= needed * BlockSize
    requires needed == 0 || (needed - 1) * BlockSize < |content|
    ensures Inv(Fill(fs, id, content, i, needed).fs)
    decreases needed - i
  {
    if i < needed {
      PlaceKeepsInv(fs, id, content, i);
      var s := Place(fs, id, content, i);
      if s.ok {
        FillKeepsInv(s.fs, id, content, i + 1, needed);
      }
    }
  }

  /** The write proper, once the file is resolved: truncate, fill, and on
      success the new size, which no directory reads. */
  lemma WriteInodeKeepsInv(fs: FS, id: nat, content: seq<byte>)
    requires Inv(fs) && id < MaxInodes && fs.inodes[id].kind == KindFile
    requires BlocksNeeded(|content|) <= MaxPointers
    ensures Inv(WriteInode(fs, id, content).fs)
  {
    var needed := BlocksNeeded(|content|);
    TruncateKeepsInv(fs, id, needed);
    var fs1 := Truncate(fs, id, needed);
    FillKeepsInv(fs1, id, content, 0, needed);
    var f := Fill(fs1, id, content, 0, needed);
    if f.ok {
      var r := SetInode(f.fs, id, f.fs.inodes[id].(size := |content|));
      PointersAlone(f.fs, r);
      DirsFrame(f.fs, r, MaxInodes);
    }
  }

  /** escrever_arquivo on a regular file keeps the invariant. The proof also
      covers the out-of-blocks exit, which `Capacity.WriteNeverOutOfBlocks`
      shows a consistent state never takes. */
  lemma WriteKeepsInv(fs: FS, who: Identity, name: seq<byte>, content: seq<byte>)
    requires Inv(fs)
    requires var id := Lookup(fs, fs.cwd, name); 0 < id < MaxInodes ==> fs.inodes[id].kind == KindFile
    ensures Inv(Write(fs, who, name, content).fs)
  {
    var id := Lookup(fs, fs.cwd, name);
    if 0 < id < MaxInodes && Can(who, fs.inodes[id], PermW) && BlocksNeeded(|content|) <= MaxPointers {
      WriteInodeKeepsInv(fs, id, content);
    }
  }

  /** One round of the copy loop keeps the invariant when the copy d has
      the source's kind and size: the fresh block becomes d's. */
  lemma CopySlotKeepsInv(fs: FS, s: nat, d: nat, k: nat)
    requires Inv(fs) && s < MaxInodes && d < MaxInodes && d != s && k < MaxPointers
    requires fs.inodes[d].ptrs[k] == 0
    requires fs.inodes[d].kind == fs.inodes[s].kind && fs.inodes[d].size == fs.inodes[s].size
    ensures Inv(CopySlot(fs, s, d, k).fs)
  {
    var c := CopySlot(fs, s, d, k);
    var sp := fs.inodes[s].ptrs[k];
    if c.ok && sp != 0 {
      var g := c.fs.inodes[d].ptrs[k];
      assert Live(fs, s) && Live(fs, d);
      Attach(fs, c.fs, d, k, g);
      CopiedDirsOk(fs, c.fs, s, d, k, g);
    }
  }

  /** A fresh block g holding a copy of the source's slot-k block, put into
      slot k of d: when it is d's entry block it carries the source's valid
      table, and no other directory's entry block was touched. */
  lemma CopiedDirsOk(fs: FS, fs2: FS, s: nat, d: nat, k: nat, g: nat)
    requires Inv(fs) && Wf(fs2) && s < MaxInodes && d < MaxInodes && d != s && k < MaxPointers
    requires fs.inodes[d].ptrs[k] == 0 && fs.inodes[s].ptrs[k] != 0
    requires fs.inodes[d].kind == fs.inodes[s].kind && fs.inodes[d].size == fs.inodes[s].size
    requires 2 <= g < MaxBlocks && !Bit(fs.bitmap, g)
    requires SameButPtrs(fs, fs2, d) && fs2.inodes[d].ptrs == fs.inodes[d].ptrs[k := g]
    requires fs2.blocks == fs.blocks[g := fs.blocks[fs.inodes[s].ptrs[k]]]
    ensures DirsOk(fs2)
  {
    forall n | 0 <= n < MaxInodes && HasDirBlock(fs, n)
      ensures fs.inodes[n].ptrs[0] != g
    {
      UnmarkedIsNobodys(fs, n, g);
    }
    if HasDirBlock(fs2, d) {
      if k == 0 {
        assert HasDirBlock(fs, s);
        assert DirOk(fs.inodes[s], fs.blocks[fs.inodes[s].ptrs[0]]);
      } else {
        assert HasDirBlock(fs, d);
      }
    }
    DirsFrame(fs, fs2, d);
  }

  lemma {:induction false} CloneKeepsInv(fs: FS, s: nat, d: nat, k: nat)
    requires Inv(fs) && s < MaxInodes && d < MaxInodes && d != s && k <= MaxPointers
    requires forall m | k <= m < MaxPointers :: fs.inodes[d].ptrs[m] == 0
    requires fs.inodes[d].kind == fs.inodes[s].kind && fs.inodes[d].size == fs.inodes[s].size
    ensures Inv(Clone(fs, s, d, k).fs)
    decreases MaxPointers - k
  {
    if k < MaxPointers {
      CopySlotKeepsInv(fs, s, d, k);
      var c := CopySlot(fs, s, d, k);
      if c.ok {
        CloneKeepsInv(c.fs, s, d, k + 1);
      }
    }
  }

  /** A source with no blocks from slot k on is copied without any change. */
  lemma {:induction false} CloneOfEmpty(fs: FS, s: nat, d: nat, k: nat)
    requires Wf(fs) && s < MaxInodes && d < MaxInodes && k <= MaxPointers
    requires forall m | k <= m < MaxPointers :: fs.inodes[s].ptrs[m] == 0
    ensures Clone(fs, s, d, k) == Filled(true, fs)
    decreases MaxPointers - k
  {
    if k < MaxPointers {
      CloneOfEmpty(fs, s, d, k + 1);
    }
  }

  /** The copy before linking: a fresh record in a free slot, then fresh
      blocks for it. */
  lemma DuplicateKeepsInv(fs: FS, who: Identity, s: nat, d: nat)
    requires Inv(fs) && s < MaxInodes && 0 < d < MaxInodes && !Live(fs, d)
    ensures Inv(Duplicate(fs, who, s, d).fs)
  {
    var src := fs.inodes[s];
    var fs1 := InitializeInode(fs, d, src.kind, src.mode, who);
    var fs2 := SetInode(fs1, d, fs1.inodes[d].(size := fs1.inodes[s].size));
    PutEmpty(fs, d, fs2.inodes[d]);
    assert fs2 == fs.(inodes := fs.inodes[d := fs2.inodes[d]]);
    DirsFrame(fs, fs2, MaxInodes);
    if d == s {
      CloneOfEmpty(fs2, s, d, 0);
    } else {
      assert fs2.inodes[s] == src;
      CloneKeepsInv(fs2, s, d, 0);
    }
  }

  /** copiar_arquivo keeps the invariant: from a consistent state it never
      runs out of blocks, and a failed final insert leaves a consistent,
      unlinked copy. */
  lemma CopyKeepsInv(fs: FS, who: Identity, from: seq<byte>, to: seq<byte>)
    requires Inv(fs) && CString(to) && |to| < NameMax
    ensures Inv(Copy(fs, who, from, to).fs)
  {
    var s := Lookup(fs, fs.cwd, from);
    if 0 < s < MaxInodes && Can(who, fs.inodes[s], PermR) && AllocInode(fs) != 0 {
      CopyIntoKeepsInv(fs, who, s, AllocInode(fs), to);
    }
  }

  /** The copy into the first free record d keeps the invariant whether or
      not the final insert works. */
  lemma CopyIntoKeepsInv(fs: FS, who: Identity, s: nat, d: nat, to: seq<byte>)
    requires Inv(fs) && CString(to) && |to| < NameMax && s < MaxInodes && d == AllocInode(fs) != 0
    ensures Inv(CopyInto(fs, who, s, d, to).fs)
  {
    DuplicateGetsBlocks(fs, who, s, d);
    DuplicateKeepsInv(fs, who, s, d);
    var c := Duplicate(fs, who, s, d);
    var ins := Insert(c.fs, who, c.fs.cwd, to, d);
    if ins.result.Ok? {
      InsertKeepsInv(c.fs, who, c.fs.cwd, to, d);
    }
  }

  /** When a free block exists at the start, a failing block loop has put
      at least one block into the copy. */
  lemma {:induction false} CloneFailHoldsBlock(fs: FS, s: nat, d: nat, k: nat)
    requires Wf(fs) && s < MaxInodes && d < MaxInodes && d != s && k <= MaxPointers
    requires HasFreeBlock(fs)
    requires !Clone(fs, s, d, k).ok
    ensures exists m | k <= m < MaxPointers :: Clone(fs, s, d, k).fs.inodes[d].ptrs[m] != 0
    decreases MaxPointers - k
  {
    var c := CopySlot(fs, s, d, k);
    if fs.inodes[s].ptrs[k] == 0 {
      CloneFailHoldsBlock(fs, s, d, k + 1);
    } else {
      var r := Clone(c.fs, s, d, k + 1);
      assert r.fs.inodes[d].ptrs[k] == c.fs.inodes[d].ptrs[k];
    }
  }

  /** Copying a free record onto itself finds no block to copy. */
  lemma DuplicateSelf(fs: FS, who: Identity, d: nat)
    requires Wf(fs) && FreeSlotsEmpty(fs) && 0 < d < MaxInodes && !Live(fs, d)
    ensures Duplicate(fs, who, d, d).ok
  {
    var src := fs.inodes[d];
    var fs1 := InitializeInode(fs, d, src.kind, src.mode, who);
    var fs2 := SetInode(fs1, d, fs1.inodes[d].(size := fs1.inodes[d].size));
    CloneOfEmpty(fs2, d, d, 0);
  }

  /** The copy step that runs out of blocks after taking one leaves the
      free record d holding a marked block. */
  lemma CopyIntoLeaks(fs: FS, who: Identity, s: nat, d: nat, to: seq<byte>)
    requires Wf(fs) && CString(to) && |to| < NameMax && s < MaxInodes && 0 < d < MaxInodes && d != s
    requires HasFreeBlock(fs)
    requires CopyInto(fs, who, s, d, to).result == Fail(NoFreeBlock)
    ensures !FreeSlotsEmpty(CopyInto(fs, who, s, d, to).fs)
  {
    var r := CopyInto(fs, who, s, d, to).fs;
    var src := fs.inodes[s];
    var fs1 := InitializeInode(fs, d, src.kind, src.mode, who);
    var fs2 := SetInode(fs1, d, fs1.inodes[d].(size := fs1.inodes[s].size));
    assert fs2.bitmap == fs.bitmap;
    CloneFailHoldsBlock(fs2, s, d, 0);
    var m :| 0 <= m < MaxPointers && Clone(fs2, s, d, 0).fs.inodes[d].ptrs[m] != 0;
    assert r.inodes[d].ptrs[m] != 0 && !Live(r, d);
  }

  /** A copy that runs out of blocks after taking one leaves a free record
      holding a marked block: (c) fails, and that block is lost until the
      disk is formatted again. A consistent state never gets here
      (`Capacity.CopyNeverOutOfBlocks`). It takes marks that no pointer
      names, which appear when a free record still holding pointers is
      initialised again; `CopyLeak.LeakState` is a state with such marks. */
  lemma CopyOutOfBlocksLeaks(fs: FS, who: Identity, from: seq<byte>, to: seq<byte>)
    requires Wf(fs) && FreeSlotsEmpty(fs) && CString(to) && |to| < NameMax && HasFreeBlock(fs)
    requires Copy(fs, who, from, to).result == Fail(NoFreeBlock)
    ensures !FreeSlotsEmpty(Copy(fs, who, from, to).fs)
  {
    var s := Lookup(fs, fs.cwd, from);
    var d := AllocInode(fs);
    if d == s {
      DuplicateSelf(fs, who, d);
    }
    CopyIntoLeaks(fs, who, s, d, to);
  }

  /** A successful copy is deep: each set slot of the source gets its own
      new block, different from the source's, holding the same 4096 bytes;
      each empty slot stays empty. */
  lemma CopyDuplicates(fs: FS, who: Identity, from: seq<byte>, to: seq<byte>)
    requires Inv(fs) && CString(to) && |to| < NameMax && Live(fs, fs.cwd)
    requires Copy(fs, who, from, to).result.Ok?
    ensures var r, s := Copy(fs, who, from, to), Lookup(fs, fs.cwd, from);
      var d := r.result.value;
      && 0 < s < MaxInodes && 0 < d < MaxInodes && !Live(fs, d)
      && forall m | 0 <= m < MaxPointers ::
           var sp, q := fs.inodes[s].ptrs[m], r.fs.inodes[d].ptrs[m];
           && (q == 0 <==> sp == 0)
           && (sp != 0 ==> q != sp && r.fs.blocks[q] == fs.blocks[sp])
  {
    var s := Lookup(fs, fs.cwd, from);
    CopyIntoDuplicates(fs, who, s, AllocInode(fs), to);
  }

  lemma CopyIntoDuplicates(fs: FS, who: Identity, s: nat, d: nat, to: seq<byte>)
    requires Inv(fs) && CString(to) && |to| < NameMax && s < MaxInodes && 0 < d < MaxInodes && !Live(fs, d)
    requires Live(fs, fs.cwd)
    requires CopyInto(fs, who, s, d, to).result.Ok?
    ensures var r := CopyInto(fs, who, s, d, to);
      forall m | 0 <= m < MaxPointers ::
        var sp, q := fs.inodes[s].ptrs[m], r.fs.inodes[d].ptrs[m];
        && (q == 0 <==> sp == 0)
        && (sp != 0 ==> q != sp && r.fs.blocks[q] == fs.blocks[sp])
  {
    var c := Duplicate(fs, who, s, d);
    var r := Link(c.fs, who, d, to);
    assert c.ok && r == CopyInto(fs, who, s, d, to);
    assert fs.cwd != d;
    assert r.fs.inodes[d] == c.fs.inodes[d];
    if d == s {
      DuplicateOfFree(fs, who, d);
    } else {
      DuplicateDeep(fs, who, s, d);
      LinkSparesFresh(fs, c.fs, r.fs, who, d, to);
    }
  }

  /** Copying a free record onto itself leaves it without blocks. */
  lemma DuplicateOfFree(fs: FS, who: Identity, d: nat)
    requires Wf(fs) && FreeSlotsEmpty(fs) && 0 < d < MaxInodes && !Live(fs, d)
    ensures forall m | 0 <= m < MaxPointers :: Duplicate(fs, who, d, d).fs.inodes[d].ptrs[m] == 0
  {
    var src := fs.inodes[d];
    var fs1 := InitializeInode(fs, d, src.kind, src.mode, who);
    var fs2 := SetInode(fs1, d, fs1.inodes[d].(size := fs1.inodes[d].size));
    CloneOfEmpty(fs2, d, d, 0);
  }

  /** Before linking, each block the copy took was free and holds the bytes
      of the source's block in the same slot. */
  lemma DuplicateDeep(fs: FS, who: Identity, s: nat, d: nat)
    requires Inv(fs) && s < MaxInodes && 0 < d < MaxInodes && d != s && !Live(fs, d)
    requires Duplicate(fs, who, s, d).ok
    ensures var c := Duplicate(fs, who, s, d);
      forall m | 0 <= m < MaxPointers ::
        var sp, q := fs.inodes[s].ptrs[m], c.fs.inodes[d].ptrs[m];
        && (q == 0 <==> sp == 0)
        && (sp != 0 ==> q != sp && !Bit(fs.bitmap, q) && c.fs.blocks[q] == fs.blocks[sp])
  {
    var src := fs.inodes[s];
    var fs1 := InitializeInode(fs, d, src.kind, src.mode, who);
    var fs2 := SetInode(fs1, d, fs1.inodes[d].(size := fs1.inodes[s].size));
    assert fs2.inodes[s] == src && fs2.bitmap == fs.bitmap && fs2.blocks == fs.blocks;
    forall m | 0 <= m < MaxPointers && src.ptrs[m] != 0
      ensures Bit(fs.bitmap, src.ptrs[m])
    {
      assert Referenced(fs, src.ptrs[m]);
    }
    var cl := Clone(fs2, s, d, 0);
    assert Duplicate(fs, who, s, d) == cl;
    assert forall m | 0 <= m < MaxPointers :: fs2.inodes[d].ptrs[m] == 0;
    CloneContent(fs2, s, d, 0);
    CloneBitmap(fs2, s, d, 0);
    forall m | 0 <= m < MaxPointers
      ensures var sp, q := src.ptrs[m], cl.fs.inodes[d].ptrs[m];
        && (q == 0 <==> sp == 0)
        && (sp != 0 ==> q != sp && !Bit(fs.bitmap, q) && cl.fs.blocks[q] == fs.blocks[sp])
    {
      var sp, q := src.ptrs[m], cl.fs.inodes[d].ptrs[m];
      if sp != 0 {
        assert q != 0;
        assert !Bit(fs2.bitmap, q);
        assert Bit(fs.bitmap, sp);
      }
    }
  }

  /** Linking writes only the working directory's entry block, which was
      marked before the copy began: blocks the copy took are left alone. */
  lemma LinkSparesFresh(fs: FS, mid: FS, r: FS, who: Identity, d: nat, to: seq<byte>)
    requires Inv(fs) && Wf(mid) && CString(to) && |to| < NameMax && 0 < d < MaxInodes && d != fs.cwd
    requires mid.cwd == fs.cwd && mid.inodes[fs.cwd] == fs.inodes[fs.cwd]
    requires r == Link(mid, who, d, to).fs && Link(mid, who, d, to).result.Ok?
    ensures forall b | 0 <= b < MaxBlocks && !Bit(fs.bitmap, b) :: r.blocks[b] == mid.blocks[b]
  {
    var blk := fs.inodes[fs.cwd].ptrs[0];
    assert Insert(mid, who, fs.cwd, to, d).result.Ok?;
    assert Live(fs, fs.cwd);
    if blk != 0 {
      assert Referenced(fs, blk);
    }
    assert Bit(fs.bitmap, blk);
  }
}
