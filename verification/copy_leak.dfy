/** A concrete state on which copiar_arquivo runs out of blocks half-way
    and leaks the block it took. Block 2 is the only clear block, every
    block from 3 on is marked although only 3, 4 and 5 are pointed at, the
    root (inode 1, block 3) holds "a" -> 2, and inode 2 is a 0644 file on
    blocks 4 and 5. Copying "a" takes block 2 for the first slot, finds no
    block for the second, and frees the record with block 2 still in it. */
module CopyLeak {
  import opened Layout
  import opened Bitmap
  import opened Permissions
  import opened Dirent
  import opened State
  import opened Directory
  import opened Content
  import opened Files
  import opened FileInvariants

  /** The name "a". */
  function A(): seq<byte> { [0x61] }

  const RootRecord := Inode(1, KindDir, DirMode, 0, 3 * EntrySize, [3, 0, 0, 0])
  const FileRecord := Inode(2, KindFile, FileMode, 0, 2 * BlockSize, [4, 5, 0, 0])

  /** Bits 0, 1 and 3 to 7 of the first byte, and every later bit. */
  function AlmostFull(): seq<bv8> { [0xFB] + seq(BitmapBytes - 1, i => 0xFF) }

  function RootBlock(): (blk: seq<byte>)
    ensures IsBlock(blk)
  {
    PutEntry(DirBlock(1, 1), 2, A(), 2)
  }

  function Records(): seq<Inode> { seq(MaxInodes, n => if n == 1 then RootRecord else if n == 2 then FileRecord else FreeInode) }
  function Blocks(): seq<seq<byte>> { seq(MaxBlocks, b => if b == 3 then RootBlock() else Zeros(BlockSize)) }

  function LeakState(): (fs: FS)
    ensures Wf(fs) && fs.cwd == 1 && fs.bitmap == AlmostFull() && fs.blocks[3] == RootBlock()
    ensures fs.inodes[1] == RootRecord && fs.inodes[2] == FileRecord
    ensures forall n | 3 <= n < MaxInodes :: fs.inodes[n] == FreeInode
  {
    assert InodeWf(RootRecord) && InodeWf(FileRecord) && InodeWf(FreeInode);
    assert IsBlock(Zeros(BlockSize)) && IsBlock(RootBlock());
    FS(AlmostFull(), Records(), Blocks(), 1)
  }

  lemma MaskSet(i: nat)
    ensures Mask(i) != 0 && 0xFF & Mask(i) == Mask(i)
    ensures 3 <= i % 8 ==> 0xFB & Mask(i) != 0
    ensures i % 8 == 2 ==> 0xFB & Mask(i) == 0
  {
    var r := i % 8;
    if r == 0 {} else if r == 1 {} else if r == 2 {} else if r == 3 {}
    else if r == 4 {} else if r == 5 {} else if r == 6 {} else {}
  }

  /** Block 2 is the one clear block from 2 on. */
  lemma OnlyBlockTwoClear()
    ensures !Bit(AlmostFull(), 2)
    ensures forall j | 3 <= j < MaxBlocks :: Bit(AlmostFull(), j)
  {
    MaskSet(2);
    forall j | 3 <= j < MaxBlocks
      ensures Bit(AlmostFull(), j)
    {
      MaskSet(j);
    }
  }

  lemma RootFindsA(fs: FS)
    requires Wf(fs) && fs.inodes[1] == RootRecord && fs.blocks[3] == RootBlock()
    ensures Lookup(fs, 1, A()) == 2
  {
    TableOfDirBlock(1, 1);
    TableAfterPut(DirBlock(1, 1), 2, A(), 2);
    var t := Table(DirBlock(1, 1));
    assert forall j | 0 <= j < EntriesPerBlock :: !Names(t, j, A());
    LookupAfterPlacing(fs, 1, A(), t, 2, 2);
  }

  lemma FirstFreeIsThree()
    ensures AllocInode(LeakState()) == 3
  {
    var fs := LeakState();
    assert !IsFreeSlot(fs, 1) && !IsFreeSlot(fs, 2) && IsFreeSlot(fs, 3);
  }

  /** The block loop of the copy of inode 2 into inode 3 takes block 2 for
      slot 0 and stops at slot 1. */
  lemma CloneStops(fs2: FS)
    requires Wf(fs2) && fs2.bitmap == AlmostFull() && fs2.inodes[2] == FileRecord
    ensures !Clone(fs2, 2, 3, 0).ok
  {
    OnlyBlockTwoClear();
    var g := Allocate(fs2.bitmap);
    assert g.id == 2;
    var c := CopySlot(fs2, 2, 3, 0);
    assert c.ok;
    assert c.fs.inodes[2] == FileRecord;
    assert forall j | 2 <= j < MaxBlocks :: Bit(c.fs.bitmap, j);
    assert Allocate(c.fs.bitmap).id == 0;
    assert !CopySlot(c.fs, 2, 3, 1).ok;
  }

  /** Only inodes 1 and 2 are live and every free record is zeroed, block 2
      is clear, and block 6 is marked though no pointer names it. */
  lemma LeakShape()
    ensures var fs := LeakState();
      FreeSlotsEmpty(fs) && HasFreeBlock(fs) && !BitmapExact(fs)
  {
    var fs := LeakState();
    OnlyBlockTwoClear();
    assert HasFreeBlock(fs) by {
      assert !Bit(fs.bitmap, 2);
    }
    assert !BitmapExact(fs) by {
      assert Bit(fs.bitmap, 6);
      assert !Referenced(fs, 6);
    }
  }

  /** Copying "a" runs out of blocks: the copy of inode 2 goes to inode 3. */
  lemma LeakCopyFails(who: Identity, to: seq<byte>)
    requires CString(to) && |to| < NameMax
    ensures Copy(LeakState(), who, A(), to).result == Fail(NoFreeBlock)
  {
    var fs := LeakState();
    RootFindsA(fs);
    FirstFreeIsThree();
    FileModeReadableByAll(who, 0);
    var src := fs.inodes[2];
    var fs1 := InitializeInode(fs, 3, src.kind, src.mode, who);
    var fs2 := SetInode(fs1, 3, fs1.inodes[3].(size := fs1.inodes[2].size));
    CloneStops(fs2);
    assert !Duplicate(fs, who, 2, 3).ok;
  }

  /** The state meets every hypothesis of the leak lemma but not (b), and
      the copy there does run out of blocks and leave the block behind. */
  lemma CopyLeakWitness(who: Identity, to: seq<byte>)
    requires CString(to) && |to| < NameMax
    ensures var fs := LeakState();
      && FreeSlotsEmpty(fs) && HasFreeBlock(fs) && !BitmapExact(fs)
      && Copy(fs, who, A(), to).result == Fail(NoFreeBlock)
      && !FreeSlotsEmpty(Copy(fs, who, A(), to).fs)
  {
    LeakShape();
    LeakCopyFails(who, to);
    CopyOutOfBlocksLeaks(LeakState(), who, A(), to);
  }
}
