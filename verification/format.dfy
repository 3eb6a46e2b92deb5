/** formatar_disco (codigo_base/utilidades_fs.c:199-257) as far as the
    resident state goes, together with the shell's return to the root
    (codigo_base/main.c:63-65). */
module Format {
  import opened Layout
  import opened Bitmap
  import opened Permissions
  import opened Dirent
  import opened State
  import opened Directory
  import opened DirFacts

  const EmptyBitmap: seq<bv8> := seq(BitmapBytes, _ => 0 as bv8)

  lemma EmptyBitmapClear()
    ensures WellSized(EmptyBitmap)
    ensures forall b | 0 <= b < MaxBlocks :: !Bit(EmptyBitmap, b)
  {
  }

  /** The inode table and bitmap are zeroed, inode 1 becomes a directory
      with mode 0755 owned by the caller, the first free block — block 2,
      since the search starts there — becomes its entry block with "." and
      ".." naming inode 1, blocks 0 and 1 are marked, and the working
      directory is the root. The other blocks keep their bytes: only the
      disk image is zero-filled. */
  function Format(fs: FS, who: Identity): (r: FS)
    requires Wf(fs)
    ensures Wf(r) && r.cwd == 1
    ensures forall n | 0 <= n < MaxInodes && n != 1 :: r.inodes[n] == FreeInode
    ensures var root := r.inodes[1];
      && root.kind == KindDir && root.mode == DirMode && root.owner == who.user
      && root.id == 1 && root.size == 2 * EntrySize && root.ptrs == [2, 0, 0, 0]
    ensures forall b | 0 <= b < MaxBlocks :: Bit(r.bitmap, b) == (b <= 2)
    ensures forall b | 0 <= b < MaxBlocks && b != 2 :: r.blocks[b] == fs.blocks[b]
    ensures r.blocks[2] == DirBlock(1, 1)
  {
    EmptyBitmapClear();
    var fs0 := FS(EmptyBitmap, seq(MaxInodes, _ => FreeInode), fs.blocks, fs.cwd);
    var fs1 := InitializeInode(fs0, 1, KindDir, DirMode, who);
    assert !Bit(fs1.bitmap, 2);
    var fs2 := InitRoot(fs1, 1);
    assert fs2.inodes[1].ptrs == [2, 0, 0, 0];
    FS(SetBit(SetBit(fs2.bitmap, 0), 1), fs2.inodes, fs2.blocks, 1)
  }

  /** A freshly formatted disk satisfies the whole invariant. */
  lemma FormatKeepsInv(fs: FS, who: Identity)
    requires Wf(fs)
    ensures Inv(Format(fs, who))
  {
    var r := Format(fs, who);
    assert forall n | 0 <= n < MaxInodes :: Live(r, n) == (n == 1);
    assert forall b | 2 <= b < MaxBlocks :: Referenced(r, b) == (b == 2) by {
      forall b | 2 <= b < MaxBlocks
        ensures Referenced(r, b) == (b == 2)
      {
        assert r.inodes[1].ptrs[0] == 2;
      }
    }
    DirBlockOk(1, 1);
    assert DirOk(r.inodes[1], r.blocks[2]);
  }

  /** In the fresh root both "." and ".." lead back to the root. */
  lemma FormatRootLinks(fs: FS, who: Identity)
    requires Wf(fs)
    ensures Lookup(Format(fs, who), 1, Dot) == 1
    ensures Lookup(Format(fs, who), 1, DotDot) == 1
  {
    var r := Format(fs, who);
    TableOfDirBlock(1, 1);
    var t := DirTable(r, 1);
    assert Names(t, 0, Dot);
    assert Names(t, 1, DotDot) && !Names(t, 0, DotDot);
  }
}
