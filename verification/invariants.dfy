/** The operations of the directory engine and the permission model keep
    the consistency invariant; rename keeps it only when the new name is not
    already taken. */
module Invariants {
  import opened Layout
  import opened Bitmap
  import opened Permissions
  import opened Dirent
  import opened State
  import opened Directory
  import opened Files
  import opened AllocFacts
  import opened DirFacts

  lemma ChmodKeepsInv(fs: FS, who: Identity, id: nat, requested: bv16)
    requires Inv(fs)
    ensures Inv(Chmod(fs, who, id, requested).fs)
  {
    var r := Chmod(fs, who, id, requested).fs;
    PointersAlone(fs, r);
    DirsFrame(fs, r, MaxInodes);
  }

  lemma CdKeepsInv(fs: FS, who: Identity, name: seq<byte>)
    requires Inv(fs)
    ensures Inv(Cd(fs, who, name).fs)
  {
    var r := Cd(fs, who, name).fs;
    PointersAlone(fs, r);
    DirsFrame(fs, r, MaxInodes);
  }

  /** Rename keeps the invariant when no used entry other than the renamed
      one already carries the stored new name. */
  lemma RenameKeepsInv(fs: FS, who: Identity, from: seq<byte>, to: seq<byte>)
    requires Inv(fs) && CString(to)
    requires var t := DirTable(fs, fs.cwd);
      forall j | 0 <= j < EntriesPerBlock :: Names(t, j, StoredName(to)) ==> StoredName(to) == from
    ensures Inv(Rename(fs, who, from, to).fs)
  {
    var r := Rename(fs, who, from, to);
    var cwd := fs.cwd;
    if r.result.Ok? {
      var t := DirTable(fs, cwd);
      var i :| 0 <= i < EntriesPerBlock && Names(t, i, from) && (forall j | 0 <= j < i :: !Names(t, j, from))
        && DirTable(r.fs, cwd) == t[i := Entry(StoredName(to), t[i].ino)];
      RenamedTable(fs, from, to, t, i, r.fs);
      assert r.fs.inodes == fs.inodes[cwd := fs.inodes[cwd].(size := r.fs.inodes[cwd].size)];
      OneDirChanged(fs, r.fs, cwd);
    }
  }

  lemma RenamedTable(fs: FS, from: seq<byte>, to: seq<byte>, t: seq<Entry>, i: nat, r: FS)
    requires Inv(fs) && Wf(r) && t == DirTable(fs, fs.cwd) && i < EntriesPerBlock && Names(t, i, from)
    requires forall j | 0 <= j < EntriesPerBlock :: Names(t, j, StoredName(to)) ==> StoredName(to) == from
    requires r.inodes == fs.inodes
    requires DirTable(r, fs.cwd) == t[i := Entry(StoredName(to), t[i].ino)]
    ensures HasDirBlock(r, fs.cwd) ==> DirOk(r.inodes[fs.cwd], r.blocks[r.inodes[fs.cwd].ptrs[0]])
  {
    if HasDirBlock(r, fs.cwd) {
      assert DirOk(fs.inodes[fs.cwd], fs.blocks[fs.inodes[fs.cwd].ptrs[0]]);
      forall j | 0 <= j < |t| && j != i
        ensures !(Used(t[j]) && t[j].name == StoredName(to))
      {
        if Used(t[j]) && t[j].name == StoredName(to) {
          assert Names(t, j, StoredName(to));
        }
      }
      RenameUsed(t, i, StoredName(to));
    }
  }

  /** Without that condition rename breaks (d): in a consistent state where
      the working directory holds both `from` and `to`, a permitted rename
      of `from` to `to` leaves two entries called `to`. */
  lemma RenameCanDuplicate(fs: FS, who: Identity, from: seq<byte>, to: seq<byte>)
    requires Inv(fs) && CString(to) && |to| < NameMax && from != to
    requires HasDirBlock(fs, fs.cwd) && Can(who, fs.inodes[fs.cwd], PermW)
    requires var t := DirTable(fs, fs.cwd);
      (exists i | 0 <= i < EntriesPerBlock :: Names(t, i, from)) && (exists j | 0 <= j < EntriesPerBlock :: Names(t, j, to))
    ensures var r := Rename(fs, who, from, to);
      r.result.Ok? && HasDirBlock(r.fs, fs.cwd) && !DistinctNames(DirTable(r.fs, fs.cwd))
  {
    var b := fs.inodes[fs.cwd].ptrs[0];
    var t := Table(fs.blocks[b]);
    var j :| 0 <= j < EntriesPerBlock && Names(t, j, to);
    var i := FindName(t, from, 0);
    assert i < EntriesPerBlock;
    TableAfterRename(fs.blocks[b], i, to);
    var r := Rename(fs, who, from, to);
    assert r.fs == SetBlock(fs, b, RenameSlot(fs.blocks[b], i, to));
    TwoNamed(DirTable(r.fs, fs.cwd), i, j);
  }

  lemma TwoNamed(t: seq<Entry>, i: nat, j: nat)
    requires i < |t| && j < |t| && i != j && Used(t[i]) && Used(t[j]) && t[i].name == t[j].name
    ensures !DistinctNames(t)
  {
    if i > j {
      TwoNamed(t, j, i);
    }
  }

  /** criar_arquivo keeps the invariant on every path, the failed insert
      included: the reset record holds no blocks. */
  lemma CreateFileKeepsInv(fs: FS, who: Identity, name: seq<byte>)
    requires Inv(fs) && CString(name)
    ensures Inv(CreateFile(fs, who, name).fs)
  {
    var n := AllocInode(fs);
    if |name| < NameMax && Can(who, fs.inodes[fs.cwd], PermW) && n != 0 {
      var blank := FreshInode(n, KindFile, FileMode, who);
      var fs1 := fs.(inodes := fs.inodes[n := blank]);
      PutBlankKeepsInv(fs, n, blank);
      if Insert(fs1, who, fs.cwd, name, n).result.Ok? {
        InsertKeepsInv(fs1, who, fs.cwd, name, n);
      } else {
        PutBlankKeepsInv(fs, n, blank.(kind := KindFree));
      }
    }
  }

  /** A record with no blocks put into a free slot keeps the invariant. */
  lemma PutBlankKeepsInv(fs: FS, n: nat, node: Inode)
    requires Inv(fs) && 0 < n < MaxInodes && !Live(fs, n) && InodeWf(node)
    requires forall k | 0 <= k < MaxPointers :: node.ptrs[k] == 0
    ensures Inv(fs.(inodes := fs.inodes[n := node]))
  {
    PutEmpty(fs, n, node);
    DirsFrame(fs, fs.(inodes := fs.inodes[n := node]), MaxInodes);
  }

  /** criar_diretorio keeps the invariant on every path: without a block the
      new directory is live and empty, and a failed insert leaves a
      well-formed unlinked directory. */
  lemma MkdirKeepsInv(fs: FS, who: Identity, name: seq<byte>)
    requires Inv(fs) && CString(name)
    ensures Inv(Mkdir(fs, who, name).fs)
  {
    var n := AllocInode(fs);
    if |name| < NameMax && Can(who, fs.inodes[fs.cwd], PermW) && n != 0 {
      MkdirAtKeepsInv(fs, who, name, n);
    }
  }

  lemma MkdirAtKeepsInv(fs: FS, who: Identity, name: seq<byte>, n: nat)
    requires Inv(fs) && CString(name) && |name| < NameMax && 0 < n < MaxInodes && !Live(fs, n)
    ensures Inv(MkdirAt(fs, who, name, n).fs)
  {
    var fs1 := InitializeInode(fs, n, KindDir, DirMode, who);
    PutEmpty(fs, n, fs1.inodes[n]);
    assert fs1 == fs.(inodes := fs.inodes[n := fs1.inodes[n]]);
    DirsFrame(fs, fs1, MaxInodes);
    if Allocate(fs1.bitmap).id != 0 {
      AttachThenInsertKeepsInv(fs1, who, name, n);
    }
  }

  /** A live directory n with no blocks, given the first free block as its
      entry block and then entered into the current directory. */
  lemma AttachThenInsertKeepsInv(fs1: FS, who: Identity, name: seq<byte>, n: nat)
    requires Inv(fs1) && CString(name) && |name| < NameMax && 0 < n < MaxInodes
    requires fs1.inodes[n].kind == KindDir && fs1.inodes[n].ptrs == [0, 0, 0, 0]
    requires Allocate(fs1.bitmap).id != 0
    ensures Inv(Insert(AttachDirBlock(fs1, n, fs1.cwd, Allocate(fs1.bitmap)), who, fs1.cwd, name, n).fs)
  {
    var fs2 := AttachDirBlock(fs1, n, fs1.cwd, Allocate(fs1.bitmap));
    AttachDirKeepsInv(fs1, n);
    if Insert(fs2, who, fs1.cwd, name, n).result.Ok? {
      InsertKeepsInv(fs2, who, fs1.cwd, name, n);
    }
  }

  /** Giving that directory the first free block as its "."/".." block. */
  lemma AttachDirKeepsInv(fs1: FS, n: nat)
    requires Inv(fs1) && 0 < n < MaxInodes
    requires fs1.inodes[n].kind == KindDir && fs1.inodes[n].ptrs == [0, 0, 0, 0]
    requires Allocate(fs1.bitmap).id != 0
    ensures Inv(AttachDirBlock(fs1, n, fs1.cwd, Allocate(fs1.bitmap)))
  {
    var g := Allocate(fs1.bitmap);
    var fs2 := AttachDirBlock(fs1, n, fs1.cwd, g);
    assert fs2.inodes[n].ptrs == fs1.inodes[n].ptrs[0 := g.id];
    Attach(fs1, fs2, n, 0, g.id);
    assert DirsOk(fs2) by {
      DirBlockOk(n, fs1.cwd);
      assert DirOk(fs2.inodes[n], fs2.blocks[g.id]);
      forall m | 0 <= m < MaxInodes && m != n && HasDirBlock(fs2, m)
        ensures fs2.blocks[fs1.inodes[m].ptrs[0]] == fs1.blocks[fs1.inodes[m].ptrs[0]]
      {
        assert fs2.inodes[m] == fs1.inodes[m];
        assert Referenced(fs1, fs1.inodes[m].ptrs[0]);
      }
      DirsFrame(fs1, fs2, n);
    }
  }

  /** On a consistent state a successful mkdir of a directory other than
      the current one gives it a block, size 64, "." leading to itself and
      ".." leading to the current directory: the link `cd ..` follows. */
  lemma MkdirLinksParent(fs: FS, who: Identity, name: seq<byte>)
    requires Inv(fs) && CString(name)
    ensures var r := Mkdir(fs, who, name);
      r.result.Ok? && r.result.value != fs.cwd ==>
        var n := r.result.value;
        && r.fs.inodes[n].ptrs[0] != 0 && r.fs.inodes[n].size == 2 * EntrySize
        && Lookup(r.fs, n, Dot) == n && Lookup(r.fs, n, DotDot) == fs.cwd
  {
    var r := Mkdir(fs, who, name);
    if r.result.Ok? && r.result.value != fs.cwd {
      var g := Allocate(fs.bitmap).id;
      assert 2 <= g < MaxBlocks && !Bit(fs.bitmap, g);
      var p := fs.inodes[fs.cwd].ptrs[0];
      assert p == 0 || Bit(fs.bitmap, p) by {
        if !Live(fs, fs.cwd) {
          assert p == 0;
        } else if p != 0 {
          assert Referenced(fs, p);
        }
      }
    }
  }
}
