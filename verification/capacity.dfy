/** Why a consistent state never runs out of blocks: 100 records of four
    pointers name at most 400 blocks, and 1022 blocks from 2 on can be
    granted. Whenever every marked block is named by some pointer, a free one
    is left, so write, mkdir and copy never fail for want of a block. */
module Capacity {
  import opened Layout
  import opened Bitmap
  import opened Permissions
  import opened Dirent
  import opened State
  import opened Directory
  import opened Content
  import opened Files

  /** Some pointer of some record, live or free, names block b. */
  predicate Held(fs: FS, b: nat)
    requires Wf(fs)
  {
    exists n, k | 0 <= n < MaxInodes && 0 <= k < MaxPointers :: fs.inodes[n].ptrs[k] == b
  }

  /** Every marked block from 2 on is named by some pointer. Weaker than
      (b): the record may be free and the block may be shared. */
  predicate MarkedHeld(fs: FS)
    requires Wf(fs)
  {
    forall b | 2 <= b < MaxBlocks && Bit(fs.bitmap, b) :: Held(fs, b)
  }

  /** The values of the pointers of records 0 to n-1. */
  function PointerSet(fs: FS, n: nat): (s: set<nat>)
    requires Wf(fs) && n <= MaxInodes
    ensures |s| <= MaxPointers * n
    ensures forall m, k | 0 <= m < n && 0 <= k < MaxPointers :: fs.inodes[m].ptrs[k] in s
  {
    if n == 0 then {}
    else
      var p := fs.inodes[n - 1].ptrs;
      var four := {p[0], p[1], p[2], p[3]};
      assert |four| <= 4 by {
        assert four == {p[0]} + {p[1]} + {p[2]} + {p[3]};
      }
      PointerSet(fs, n - 1) + four
  }

  function Range(lo: nat, hi: nat): (s: set<nat>)
    requires lo <= hi
    ensures |s| == hi - lo
    ensures forall x :: x in s <==> lo <= x < hi
    decreases hi - lo
  {
    if lo == hi then {} else Range(lo, hi - 1) + {hi - 1}
  }

  lemma {:induction false} SubsetSize<T>(a: set<T>, b: set<T>)
    requires a <= b
    ensures |a| <= |b|
    decreases a
  {
    if a != {} {
      var x :| x in a;
      SubsetSize(a - {x}, b - {x});
    }
  }

  /** The counting argument: with every marked block named by a pointer,
      some block from 2 on is still clear. */
  lemma HeldLeavesFree(fs: FS)
    requires Wf(fs) && MarkedHeld(fs)
    ensures HasFreeBlock(fs)
  {
    var marked := set b | 2 <= b < MaxBlocks && Bit(fs.bitmap, b);
    var named := PointerSet(fs, MaxInodes);
    assert marked <= named by {
      forall b | b in marked
        ensures b in named
      {
        assert Held(fs, b);
        var n, k :| 0 <= n < MaxInodes && 0 <= k < MaxPointers && fs.inodes[n].ptrs[k] == b;
      }
    }
    SubsetSize(marked, named);
    var all := Range(2, MaxBlocks);
    if all <= marked {
      SubsetSize(all, marked);
    }
    assert !(all <= marked);
    var b :| b in all && b !in marked;
    assert 2 <= b < MaxBlocks && !Bit(fs.bitmap, b);
  }

  lemma DifferenceSize<T>(a: set<T>, b: set<T>)
    ensures |a - b| >= |a| - |b|
  {
    assert a == (a - b) + (a * b);
    assert (a - b) * (a * b) == {};
    SubsetSize(a * b, b);
  }

  /** The other way round: with every block from 2 on marked, at least
      622 of them are named by no pointer at all. */
  lemma FullNeedsOrphans(fs: FS)
    requires Wf(fs) && forall b | 2 <= b < MaxBlocks :: Bit(fs.bitmap, b)
    ensures |set b | 2 <= b < MaxBlocks && !Held(fs, b)| >= MaxBlocks - 2 - MaxPointers * MaxInodes
  {
    var all := Range(2, MaxBlocks);
    var named := PointerSet(fs, MaxInodes);
    var orphans := set b | 2 <= b < MaxBlocks && !Held(fs, b);
    assert all - named <= orphans;
    DifferenceSize(all, named);
    SubsetSize(all - named, orphans);
  }

  /** (b) names every marked block by a live pointer. */
  lemma InvHeld(fs: FS)
    requires Inv(fs)
    ensures MarkedHeld(fs)
  {
    forall b | 2 <= b < MaxBlocks && Bit(fs.bitmap, b)
      ensures Held(fs, b)
    {
      assert Referenced(fs, b);
    }
  }

  /** A consistent state always has a free block from 2 on. */
  lemma InvHasFreeBlock(fs: FS)
    requires Inv(fs)
    ensures HasFreeBlock(fs)
    ensures Allocate(fs.bitmap).id != 0
  {
    InvHeld(fs);
    HeldLeavesFree(fs);
  }

  /** With a free block, the allocator grants one. */
  lemma GrantWhenFree(fs: FS)
    requires Wf(fs) && MarkedHeld(fs)
    ensures Allocate(fs.bitmap).id != 0
  {
    HeldLeavesFree(fs);
    var b :| 2 <= b < MaxBlocks && !Bit(fs.bitmap, b);
  }

  lemma TruncateHeld(fs: FS, id: nat, from: nat)
    requires Wf(fs) && id < MaxInodes && from <= MaxPointers && MarkedHeld(fs)
    ensures MarkedHeld(Truncate(fs, id, from))
  {
    var r := Truncate(fs, id, from);
    var p := fs.inodes[id].ptrs;
    forall b | 2 <= b < MaxBlocks && Bit(r.bitmap, b)
      ensures Held(r, b)
    {
      assert Bit(fs.bitmap, b) && !HeldBy(p, from, MaxPointers, b);
      assert Held(fs, b);
      var n, k :| 0 <= n < MaxInodes && 0 <= k < MaxPointers && fs.inodes[n].ptrs[k] == b;
      assert r.inodes[n].ptrs[k] == b;
    }
  }

  /** One round of the write loop grants a block when it needs one, and
      the block it marks is the one it puts into the slot. */
  lemma PlaceHeld(fs: FS, id: nat, content: seq<byte>, i: nat)
    requires Wf(fs) && id < MaxInodes && i < MaxPointers && i * BlockSize <= |content| && MarkedHeld(fs)
    ensures Place(fs, id, content, i).ok
    ensures MarkedHeld(Place(fs, id, content, i).fs)
  {
    GrantWhenFree(fs);
    var r := Place(fs, id, content, i);
    var p, q := fs.inodes[id].ptrs, r.fs.inodes[id].ptrs;
    forall b | 2 <= b < MaxBlocks && Bit(r.fs.bitmap, b)
      ensures Held(r.fs, b)
    {
      if p[i] == 0 && b == q[i] {
        assert r.fs.inodes[id].ptrs[i] == b;
      } else {
        assert Held(fs, b);
        var n, k :| 0 <= n < MaxInodes && 0 <= k < MaxPointers && fs.inodes[n].ptrs[k] == b;
        assert r.fs.inodes[n].ptrs[k] == b;
      }
    }
  }

  lemma {:induction false} FillHeld(fs: FS, id: nat, content: seq<byte>, i: nat, needed: nat)
    requires Wf(fs) && id < MaxInodes && i <= needed <= MaxPointers && |content| <= needed * BlockSize
    requires needed == 0 || (needed - 1) * BlockSize < |content|
    requires MarkedHeld(fs)
    ensures Fill(fs, id, content, i, needed).ok
    decreases needed - i
  {
    if i < needed {
      PlaceHeld(fs, id, content, i);
      FillHeld(Place(fs, id, content, i).fs, id, content, i + 1, needed);
    }
  }

  /** The write loop names every block it marks, whether or not it
      finishes. */
  lemma {:induction false} FillKeepsHeld(fs: FS, id: nat, content: seq<byte>, i: nat, needed: nat)
    requires Wf(fs) && id < MaxInodes && i <= needed <= MaxPointers && |content| <= needed * BlockSize
    requires needed == 0 || (needed - 1) * BlockSize < |content|
    requires MarkedHeld(fs)
    ensures MarkedHeld(Fill(fs, id, content, i, needed).fs)
    decreases needed - i
  {
    if i < needed {
      PlaceHeld(fs, id, content, i);
      FillKeepsHeld(Place(fs, id, content, i).fs, id, content, i + 1, needed);
    }
  }

  /** No write leaves a marked block that no pointer names, whatever the
      kind of the inode it goes to: the blocks it marks are the ones it puts
      into the inode's slots. */
  lemma WriteKeepsHeld(fs: FS, who: Identity, name: seq<byte>, content: seq<byte>)
    requires Wf(fs) && MarkedHeld(fs)
    ensures MarkedHeld(Write(fs, who, name, content).fs)
  {
    var id := Lookup(fs, fs.cwd, name);
    if 0 < id < MaxInodes && Can(who, fs.inodes[id], PermW) && BlocksNeeded(|content|) <= MaxPointers {
      WriteInodeKeepsHeld(fs, id, content);
    }
  }

  lemma WriteInodeKeepsHeld(fs: FS, id: nat, content: seq<byte>)
    requires Wf(fs) && id < MaxInodes && BlocksNeeded(|content|) <= MaxPointers && MarkedHeld(fs)
    ensures MarkedHeld(WriteInode(fs, id, content).fs)
  {
    var needed := BlocksNeeded(|content|);
    TruncateHeld(fs, id, needed);
    var f := Fill(Truncate(fs, id, needed), id, content, 0, needed);
    FillKeepsHeld(Truncate(fs, id, needed), id, content, 0, needed);
    if f.ok {
      ResizeKeepsHeld(f.fs, id, |content|);
    }
  }

  /** Changing a record's size leaves every pointer where it was. */
  lemma ResizeKeepsHeld(fs: FS, id: nat, size: nat)
    requires Wf(fs) && id < MaxInodes && size < U32Limit && MarkedHeld(fs)
    ensures MarkedHeld(SetInode(fs, id, fs.inodes[id].(size := size)))
  {
    var r := SetInode(fs, id, fs.inodes[id].(size := size));
    forall b | 2 <= b < MaxBlocks && Bit(r.bitmap, b)
      ensures Held(r, b)
    {
      assert Held(fs, b);
      var n, k :| 0 <= n < MaxInodes && 0 <= k < MaxPointers && fs.inodes[n].ptrs[k] == b;
      assert r.inodes[n].ptrs[k] == b;
    }
  }

  /** escrever_arquivo never runs out of blocks from a consistent state,
      whatever the kind of the inode the name leads to: the blocks it
      releases first and the ones it takes stay within the 400 pointers. */
  lemma WriteNeverOutOfBlocks(fs: FS, who: Identity, name: seq<byte>, content: seq<byte>)
    requires Inv(fs)
    ensures Write(fs, who, name, content).result != Fail(NoFreeBlock)
  {
    var id := Lookup(fs, fs.cwd, name);
    if 0 < id < MaxInodes && BlocksNeeded(|content|) <= MaxPointers {
      InvHeld(fs);
      var needed := BlocksNeeded(|content|);
      TruncateHeld(fs, id, needed);
      FillHeld(Truncate(fs, id, needed), id, content, 0, needed);
    }
  }

  /** criar_diretorio never runs out of blocks from a consistent state, so
      it never leaves a live directory without an entry block. */
  lemma MkdirNeverOutOfBlocks(fs: FS, who: Identity, name: seq<byte>)
    requires Inv(fs) && CString(name)
    ensures Mkdir(fs, who, name).result != Fail(NoFreeBlock)
  {
    InvHasFreeBlock(fs);
  }

  /** One round of the copy loop into an empty slot of d. */
  lemma CopySlotHeld(fs: FS, s: nat, d: nat, k: nat)
    requires Wf(fs) && s < MaxInodes && d < MaxInodes && k < MaxPointers && MarkedHeld(fs)
    requires fs.inodes[d].ptrs[k] == 0
    ensures CopySlot(fs, s, d, k).ok
    ensures MarkedHeld(CopySlot(fs, s, d, k).fs)
  {
    GrantWhenFree(fs);
    var r := CopySlot(fs, s, d, k);
    var q := r.fs.inodes[d].ptrs;
    forall b | 2 <= b < MaxBlocks && Bit(r.fs.bitmap, b)
      ensures Held(r.fs, b)
    {
      if fs.inodes[s].ptrs[k] != 0 && b == q[k] {
        assert r.fs.inodes[d].ptrs[k] == b;
      } else {
        assert Held(fs, b);
        var n, j :| 0 <= n < MaxInodes && 0 <= j < MaxPointers && fs.inodes[n].ptrs[j] == b;
        assert r.fs.inodes[n].ptrs[j] == b;
      }
    }
  }

  lemma {:induction false} CloneHeld(fs: FS, s: nat, d: nat, k: nat)
    requires Wf(fs) && s < MaxInodes && d < MaxInodes && k <= MaxPointers && MarkedHeld(fs)
    requires forall m | k <= m < MaxPointers :: fs.inodes[d].ptrs[m] == 0
    ensures Clone(fs, s, d, k).ok
    decreases MaxPointers - k
  {
    if k < MaxPointers {
      CopySlotHeld(fs, s, d, k);
      var c := CopySlot(fs, s, d, k);
      assert forall m | k + 1 <= m < MaxPointers :: c.fs.inodes[d].ptrs[m] == fs.inodes[d].ptrs[m];
      CloneHeld(c.fs, s, d, k + 1);
    }
  }

  /** The copy into a free record of a consistent state gets every block
      it needs. */
  lemma DuplicateGetsBlocks(fs: FS, who: Identity, s: nat, d: nat)
    requires Inv(fs) && s < MaxInodes && 0 < d < MaxInodes && !Live(fs, d)
    ensures Duplicate(fs, who, s, d).ok
  {
    InvHeld(fs);
    var src := fs.inodes[s];
    var fs1 := InitializeInode(fs, d, src.kind, src.mode, who);
    var fs2 := SetInode(fs1, d, fs1.inodes[d].(size := fs1.inodes[s].size));
    forall b | 2 <= b < MaxBlocks && Bit(fs2.bitmap, b)
      ensures Held(fs2, b)
    {
      assert Held(fs, b);
      var n, k :| 0 <= n < MaxInodes && 0 <= k < MaxPointers && fs.inodes[n].ptrs[k] == b;
      assert n != d;
      assert fs2.inodes[n].ptrs[k] == b;
    }
    CloneHeld(fs2, s, d, 0);
  }

  /** copiar_arquivo never runs out of blocks from a consistent state. */
  lemma CopyNeverOutOfBlocks(fs: FS, who: Identity, from: seq<byte>, to: seq<byte>)
    requires Inv(fs) && CString(to) && |to| < NameMax
    ensures Copy(fs, who, from, to).result != Fail(NoFreeBlock)
  {
    var s := Lookup(fs, fs.cwd, from);
    var d := AllocInode(fs);
    if 0 < s < MaxInodes && Can(who, fs.inodes[s], PermR) && d != 0 {
      CopyIntoGetsBlocks(fs, who, s, d, to);
    }
  }

  lemma CopyIntoGetsBlocks(fs: FS, who: Identity, s: nat, d: nat, to: seq<byte>)
    requires Inv(fs) && CString(to) && |to| < NameMax && s < MaxInodes && 0 < d < MaxInodes && !Live(fs, d)
    ensures CopyInto(fs, who, s, d, to).result != Fail(NoFreeBlock)
  {
    DuplicateGetsBlocks(fs, who, s, d);
  }
}
