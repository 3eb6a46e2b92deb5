/** How the allocation invariants (a) to (c) react to the few kinds of change
    the operations make: pointers untouched, an empty record put in place, a
    free block attached to a slot, a block detached, a record freed with its
    blocks. Every operation's preservation proof is built from these. */
module AllocFacts {
  import opened Layout
  import opened Bitmap
  import opened State
  import opened Content

  /** Same bitmap, same liveness, same pointers: same verdict. */
  lemma PointersAlone(fs: FS, fs2: FS)
    requires Wf(fs) && Wf(fs2) && AllocOk(fs)
    requires fs2.bitmap == fs.bitmap
    requires forall n | 0 <= n < MaxInodes :: Live(fs2, n) == Live(fs, n) && fs2.inodes[n].ptrs == fs.inodes[n].ptrs
    ensures AllocOk(fs2)
  {
    forall b | 2 <= b < MaxBlocks
      ensures Referenced(fs2, b) == Referenced(fs, b)
    {
      if Referenced(fs, b) {
        var n, k :| 0 <= n < MaxInodes && 0 <= k < MaxPointers && Live(fs, n) && fs.inodes[n].ptrs[k] == b;
        assert Live(fs2, n) && fs2.inodes[n].ptrs[k] == b;
      }
      if Referenced(fs2, b) {
        var n, k :| 0 <= n < MaxInodes && 0 <= k < MaxPointers && Live(fs2, n) && fs2.inodes[n].ptrs[k] == b;
        assert Live(fs, n) && fs.inodes[n].ptrs[k] == b;
      }
    }
  }

  /** Putting a record with no blocks into a slot that holds none. */
  lemma PutEmpty(fs: FS, n: nat, node: Inode)
    requires Wf(fs) && AllocOk(fs) && n < MaxInodes && InodeWf(node)
    requires forall k | 0 <= k < MaxPointers :: fs.inodes[n].ptrs[k] == 0 && node.ptrs[k] == 0
    ensures AllocOk(fs.(inodes := fs.inodes[n := node]))
  {
    var fs2 := fs.(inodes := fs.inodes[n := node]);
    forall b | 2 <= b < MaxBlocks
      ensures Referenced(fs2, b) == Referenced(fs, b)
    {
      if Referenced(fs, b) {
        var m, k :| 0 <= m < MaxInodes && 0 <= k < MaxPointers && Live(fs, m) && fs.inodes[m].ptrs[k] == b;
        assert m != n && Live(fs2, m) && fs2.inodes[m].ptrs[k] == b;
      }
      if Referenced(fs2, b) {
        var m, k :| 0 <= m < MaxInodes && 0 <= k < MaxPointers && Live(fs2, m) && fs2.inodes[m].ptrs[k] == b;
        assert m != n && Live(fs, m) && fs.inodes[m].ptrs[k] == b;
      }
    }
  }

  /** A free block (bit clear, from 2 on) put into an empty slot of a live
      record, its bit set. The blocks' bytes play no part. */
  lemma Attach(fs: FS, fs2: FS, n: nat, k: nat, g: nat)
    requires Wf(fs) && Wf(fs2) && AllocOk(fs) && n < MaxInodes && k < MaxPointers && Live(fs, n)
    requires fs.inodes[n].ptrs[k] == 0 && 2 <= g < MaxBlocks && !Bit(fs.bitmap, g)
    requires forall b | 0 <= b < MaxBlocks :: Bit(fs2.bitmap, b) == (b == g || Bit(fs.bitmap, b))
    requires forall j | 0 <= j < MaxInodes && j != n :: fs2.inodes[j] == fs.inodes[j]
    requires fs2.inodes[n].kind == fs.inodes[n].kind && fs2.inodes[n].ptrs == fs.inodes[n].ptrs[k := g]
    ensures AllocOk(fs2)
  {
    assert !Referenced(fs, g);
    assert forall m, j | 0 <= m < MaxInodes && 0 <= j < MaxPointers && !(m == n && j == k) ::
      fs2.inodes[m].ptrs[j] == fs.inodes[m].ptrs[j];
    assert forall m | 0 <= m < MaxInodes :: Live(fs2, m) == Live(fs, m);
    forall b | 2 <= b < MaxBlocks
      ensures Referenced(fs2, b) == (b == g || Referenced(fs, b))
    {
      if Referenced(fs, b) {
        var m, j :| 0 <= m < MaxInodes && 0 <= j < MaxPointers && Live(fs, m) && fs.inodes[m].ptrs[j] == b;
        assert !(m == n && j == k);
        assert Live(fs2, m) && fs2.inodes[m].ptrs[j] == b;
      }
      if b == g {
        assert Live(fs2, n) && fs2.inodes[n].ptrs[k] == b;
      }
      if Referenced(fs2, b) && b != g {
        var m, j :| 0 <= m < MaxInodes && 0 <= j < MaxPointers && Live(fs2, m) && fs2.inodes[m].ptrs[j] == b;
        assert Live(fs, m) && fs.inodes[m].ptrs[j] == b;
      }
    }
    assert BitmapExact(fs2);
    assert NoSharing(fs2) by {
      forall n1, k1, n2, k2 |
        && 0 <= n1 < MaxInodes && 0 <= k1 < MaxPointers && 0 <= n2 < MaxInodes && 0 <= k2 < MaxPointers
        && Live(fs2, n1) && Live(fs2, n2) && fs2.inodes[n1].ptrs[k1] != 0 && fs2.inodes[n1].ptrs[k1] == fs2.inodes[n2].ptrs[k2]
        ensures n1 == n2 && k1 == k2
      {
        assert fs2.inodes[n1].ptrs[k1] != g || (n1 == n && k1 == k) by {
          if !(n1 == n && k1 == k) {
            assert Live(fs, n1) && fs2.inodes[n1].ptrs[k1] == fs.inodes[n1].ptrs[k1];
          }
        }
        assert fs2.inodes[n2].ptrs[k2] != g || (n2 == n && k2 == k) by {
          if !(n2 == n && k2 == k) {
            assert Live(fs, n2) && fs2.inodes[n2].ptrs[k2] == fs.inodes[n2].ptrs[k2];
          }
        }
      }
    }
    assert PointersInRange(fs2) && FreeSlotsEmpty(fs2) && ReservedMarked(fs2);
  }

  /** A live record's slot k let go of its block, whose bit is cleared. */
  lemma Detach(fs: FS, fs2: FS, n: nat, k: nat)
    requires Wf(fs) && Wf(fs2) && AllocOk(fs) && n < MaxInodes && k < MaxPointers
    requires fs.inodes[n].ptrs[k] != 0
    requires var b := fs.inodes[n].ptrs[k];
      forall x | 0 <= x < MaxBlocks :: Bit(fs2.bitmap, x) == (x != b && Bit(fs.bitmap, x))
    requires forall j | 0 <= j < MaxInodes && j != n :: fs2.inodes[j] == fs.inodes[j]
    requires fs2.inodes[n].kind == fs.inodes[n].kind && fs2.inodes[n].ptrs == fs.inodes[n].ptrs[k := 0]
    ensures AllocOk(fs2)
  {
    var g := fs.inodes[n].ptrs[k];
    assert Live(fs, n) && 2 <= g;
    DetachedReferences(fs, fs2, n, k);
    assert BitmapExact(fs2);
    DetachedNoSharing(fs, fs2, n, k);
    assert PointersInRange(fs2) && FreeSlotsEmpty(fs2) && ReservedMarked(fs2);
  }

  /** With slot k of n emptied, a block is referenced exactly when it was
      and it is not the one slot k held. */
  lemma DetachedReferences(fs: FS, fs2: FS, n: nat, k: nat)
    requires Wf(fs) && Wf(fs2) && NoSharing(fs) && n < MaxInodes && k < MaxPointers
    requires fs.inodes[n].ptrs[k] != 0 && Live(fs, n)
    requires forall j | 0 <= j < MaxInodes && j != n :: fs2.inodes[j] == fs.inodes[j]
    requires fs2.inodes[n].kind == fs.inodes[n].kind && fs2.inodes[n].ptrs == fs.inodes[n].ptrs[k := 0]
    ensures forall b | 2 <= b < MaxBlocks ::
      Referenced(fs2, b) == (b != fs.inodes[n].ptrs[k] && Referenced(fs, b))
  {
    var g := fs.inodes[n].ptrs[k];
    forall b | 2 <= b < MaxBlocks
      ensures Referenced(fs2, b) == (b != g && Referenced(fs, b))
    {
      if Referenced(fs, b) && b != g {
        var m, j :| 0 <= m < MaxInodes && 0 <= j < MaxPointers && Live(fs, m) && fs.inodes[m].ptrs[j] == b;
        assert !(m == n && j == k);
        assert Live(fs2, m) && fs2.inodes[m].ptrs[j] == b;
      }
      if Referenced(fs2, b) {
        var m, j :| 0 <= m < MaxInodes && 0 <= j < MaxPointers && Live(fs2, m) && fs2.inodes[m].ptrs[j] == b;
        assert !(m == n && j == k);
        assert Live(fs, m) && fs.inodes[m].ptrs[j] == b;
        assert b != g;
      }
    }
  }

  /** Emptying one slot cannot make two live pointers share a block. */
  lemma DetachedNoSharing(fs: FS, fs2: FS, n: nat, k: nat)
    requires Wf(fs) && Wf(fs2) && NoSharing(fs) && n < MaxInodes && k < MaxPointers
    requires forall j | 0 <= j < MaxInodes && j != n :: fs2.inodes[j] == fs.inodes[j]
    requires fs2.inodes[n].kind == fs.inodes[n].kind && fs2.inodes[n].ptrs == fs.inodes[n].ptrs[k := 0]
    ensures NoSharing(fs2)
  {
    forall n1, k1, n2, k2 |
      && 0 <= n1 < MaxInodes && 0 <= k1 < MaxPointers && 0 <= n2 < MaxInodes && 0 <= k2 < MaxPointers
      && Live(fs2, n1) && Live(fs2, n2) && fs2.inodes[n1].ptrs[k1] != 0 && fs2.inodes[n1].ptrs[k1] == fs2.inodes[n2].ptrs[k2]
      ensures n1 == n2 && k1 == k2
    {
      assert fs.inodes[n1].ptrs[k1] == fs2.inodes[n1].ptrs[k1];
      assert fs.inodes[n2].ptrs[k2] == fs2.inodes[n2].ptrs[k2];
    }
  }

  /** Record n zeroed and every block it held released. */
  lemma FreeWithBlocks(fs: FS, fs2: FS, n: nat)
    requires Wf(fs) && Wf(fs2) && AllocOk(fs) && n < MaxInodes
    requires var p := fs.inodes[n].ptrs;
      forall b | 0 <= b < MaxBlocks :: Bit(fs2.bitmap, b) == (Bit(fs.bitmap, b) && !HeldBy(p, 0, MaxPointers, b))
    requires fs2.inodes == fs.inodes[n := FreeInode]
    ensures AllocOk(fs2)
  {
    var p := fs.inodes[n].ptrs;
    assert !HeldBy(p, 0, MaxPointers, 0) && !HeldBy(p, 0, MaxPointers, 1);
    FreedReferences(fs, fs2, n);
    assert BitmapExact(fs2);
    FreedNoSharing(fs, fs2, n);
    assert PointersInRange(fs2) && FreeSlotsEmpty(fs2) && ReservedMarked(fs2);
  }

  /** With record n freed, a block is referenced exactly when it was and n
      did not hold it. */
  lemma FreedReferences(fs: FS, fs2: FS, n: nat)
    requires Wf(fs) && Wf(fs2) && AllocOk(fs) && n < MaxInodes
    requires fs2.inodes == fs.inodes[n := FreeInode]
    ensures forall b | 2 <= b < MaxBlocks ::
      Referenced(fs2, b) == (Referenced(fs, b) && !HeldBy(fs.inodes[n].ptrs, 0, MaxPointers, b))
  {
    var p := fs.inodes[n].ptrs;
    forall b | 2 <= b < MaxBlocks
      ensures Referenced(fs2, b) == (Referenced(fs, b) && !HeldBy(p, 0, MaxPointers, b))
    {
      if Referenced(fs, b) && !HeldBy(p, 0, MaxPointers, b) {
        var m, j :| 0 <= m < MaxInodes && 0 <= j < MaxPointers && Live(fs, m) && fs.inodes[m].ptrs[j] == b;
        assert m != n;
        assert Live(fs2, m) && fs2.inodes[m].ptrs[j] == b;
      }
      if Referenced(fs2, b) {
        var m, j :| 0 <= m < MaxInodes && 0 <= j < MaxPointers && Live(fs2, m) && fs2.inodes[m].ptrs[j] == b;
        assert m != n;
        assert Live(fs, m) && fs.inodes[m].ptrs[j] == b;
      }
    }
  }

  /** Freeing a record cannot make two live pointers share a block. */
  lemma FreedNoSharing(fs: FS, fs2: FS, n: nat)
    requires Wf(fs) && Wf(fs2) && NoSharing(fs) && n < MaxInodes
    requires fs2.inodes == fs.inodes[n := FreeInode]
    ensures NoSharing(fs2)
  {
    forall n1, k1, n2, k2 |
      && 0 <= n1 < MaxInodes && 0 <= k1 < MaxPointers && 0 <= n2 < MaxInodes && 0 <= k2 < MaxPointers
      && Live(fs2, n1) && Live(fs2, n2) && fs2.inodes[n1].ptrs[k1] != 0 && fs2.inodes[n1].ptrs[k1] == fs2.inodes[n2].ptrs[k2]
      ensures n1 == n2 && k1 == k2
    {
      assert n1 != n && n2 != n;
    }
  }
}
