/** How invariants (d) and (e) react to the three edits of an entry table,
    and the insert and remove operations shown to preserve the whole
    invariant. */
module DirFacts {
  import opened Layout
  import opened Bitmap
  import opened Permissions
  import opened Dirent
  import opened State
  import opened Directory
  import opened AllocFacts

  /** A used entry with a name not yet present, put into an empty slot. */
  lemma PlaceNew(t: seq<Entry>, i: nat, e: Entry)
    requires i < |t| && DistinctNames(t) && !Used(t[i]) && Used(e)
    requires forall j | 0 <= j < |t| :: !(Used(t[j]) && t[j].name == e.name)
    ensures DistinctNames(t[i := e]) && Count(t[i := e]) == Count(t) + 1
  {
    CountUpdate(t, i, e);
  }

  /** A used entry cleared. */
  lemma ClearUsed(t: seq<Entry>, i: nat)
    requires i < |t| && DistinctNames(t) && Used(t[i])
    ensures DistinctNames(t[i := EmptyEntry]) && Count(t[i := EmptyEntry]) + 1 == Count(t)
  {
    CountUpdate(t, i, EmptyEntry);
  }

  /** A used entry given a name no other used entry has. */
  lemma RenameUsed(t: seq<Entry>, i: nat, name: seq<byte>)
    requires i < |t| && DistinctNames(t) && Used(t[i])
    requires forall j | 0 <= j < |t| && j != i :: !(Used(t[j]) && t[j].name == name)
    ensures DistinctNames(t[i := Entry(name, t[i].ino)]) && Count(t[i := Entry(name, t[i].ino)]) == Count(t)
  {
    CountUpdate(t, i, Entry(name, t[i].ino));
  }

  /** Every directory with an entry block other than d kept its size, its
      block and the block's bytes; d, when it has a block, is in order. */
  lemma DirsFrame(fs: FS, fs2: FS, d: nat)
    requires Wf(fs) && Wf(fs2) && DirsOk(fs)
    requires forall n | 0 <= n < MaxInodes && n != d && HasDirBlock(fs2, n) ::
      && HasDirBlock(fs, n) && fs2.inodes[n].size == fs.inodes[n].size
      && fs2.inodes[n].ptrs[0] == fs.inodes[n].ptrs[0]
      && fs2.blocks[fs.inodes[n].ptrs[0]] == fs.blocks[fs.inodes[n].ptrs[0]]
    requires d < MaxInodes && HasDirBlock(fs2, d) ==> DirOk(fs2.inodes[d], fs2.blocks[fs2.inodes[d].ptrs[0]])
    ensures DirsOk(fs2)
  {
    forall n | 0 <= n < MaxInodes && HasDirBlock(fs2, n)
      ensures DirOk(fs2.inodes[n], fs2.blocks[fs2.inodes[n].ptrs[0]])
    {
      if n != d {
        assert DirOk(fs.inodes[n], fs.blocks[fs.inodes[n].ptrs[0]]);
      }
    }
  }

  /** Two live records never share a block, so the entry block of one
      directory is no block of another live record. */
  lemma OwnBlock(fs: FS, a: nat, k: nat, n: nat)
    requires Wf(fs) && AllocOk(fs) && a < MaxInodes && k < MaxPointers && n < MaxInodes && n != a
    requires Live(fs, a) && Live(fs, n) && fs.inodes[n].ptrs[0] != 0
    ensures fs.inodes[a].ptrs[k] != fs.inodes[n].ptrs[0]
  {
  }

  /** A state that differs from a consistent one only in directory dir's
      size and entry block (with every pointer and live flag kept) stays
      consistent when dir's new table is in order. */
  lemma OneDirChanged(fs: FS, r: FS, dir: nat)
    requires Inv(fs) && Wf(r) && dir < MaxInodes
    requires r.bitmap == fs.bitmap && r.cwd == fs.cwd
    requires r.inodes == fs.inodes[dir := fs.inodes[dir].(size := r.inodes[dir].size)]
    requires forall b | 0 <= b < MaxBlocks && b != fs.inodes[dir].ptrs[0] :: r.blocks[b] == fs.blocks[b]
    requires HasDirBlock(r, dir) ==> DirOk(r.inodes[dir], r.blocks[r.inodes[dir].ptrs[0]])
    ensures Inv(r)
  {
    PointersAlone(fs, r);
    var blk := fs.inodes[dir].ptrs[0];
    forall n | 0 <= n < MaxInodes && n != dir && HasDirBlock(r, n)
      ensures r.blocks[fs.inodes[n].ptrs[0]] == fs.blocks[fs.inodes[n].ptrs[0]]
    {
      if blk != 0 && Live(fs, dir) {
        OwnBlock(fs, dir, 0, n);
      }
    }
    DirsFrame(fs, r, dir);
  }

  /** A successful insert keeps the whole invariant. */
  lemma InsertKeepsInv(fs: FS, who: Identity, dir: nat, name: seq<byte>, target: nat)
    requires Inv(fs) && dir < MaxInodes && target < U32Limit && CString(name) && |name| < NameMax
    requires Insert(fs, who, dir, name, target).result.Ok?
    ensures Inv(Insert(fs, who, dir, name, target).fs)
  {
    var r := Insert(fs, who, dir, name, target).fs;
    if HasDirBlock(r, dir) {
      var t := DirTable(fs, dir);
      var i :| 0 <= i < EntriesPerBlock && !Used(t[i]) && (forall j | 0 <= j < i :: Used(t[j]))
        && DirTable(r, dir) == t[i := Entry(name, target)];
      InsertedTable(fs, dir, name, target, t, i, r);
    }
    OneDirChanged(fs, r, dir);
  }

  lemma InsertedTable(fs: FS, dir: nat, name: seq<byte>, target: nat, t: seq<Entry>, i: nat, r: FS)
    requires Inv(fs) && Wf(r) && 0 < dir < MaxInodes && HasDirBlock(fs, dir) && 0 < target
    requires t == DirTable(fs, dir) && i < EntriesPerBlock && !Used(t[i])
    requires Lookup(fs, dir, name) == 0
    requires r.inodes[dir] == fs.inodes[dir].(size := Grow(fs.inodes[dir].size))
    requires DirTable(r, dir) == t[i := Entry(name, target)]
    ensures DirOk(r.inodes[dir], r.blocks[r.inodes[dir].ptrs[0]])
  {
    assert forall j | 0 <= j < EntriesPerBlock :: !Names(t, j, name);
    assert DirOk(fs.inodes[dir], fs.blocks[fs.inodes[dir].ptrs[0]]);
    PlaceNew(t, i, Entry(name, target));
  }

  lemma RemovedTable(fs: FS, dir: nat, t: seq<Entry>, i: nat, r: FS)
    requires Inv(fs) && Wf(r) && dir < MaxInodes && HasDirBlock(fs, dir)
    requires t == DirTable(fs, dir) && i < EntriesPerBlock && Used(t[i])
    requires r.inodes[dir] == fs.inodes[dir].(size := Shrink(fs.inodes[dir].size))
    requires DirTable(r, dir) == t[i := EmptyEntry]
    ensures DirOk(r.inodes[dir], r.blocks[r.inodes[dir].ptrs[0]])
  {
    assert DirOk(fs.inodes[dir], fs.blocks[fs.inodes[dir].ptrs[0]]);
    ClearUsed(t, i);
  }

  /** A successful remove keeps the whole invariant. */
  lemma RemoveKeepsInv(fs: FS, who: Identity, dir: nat, name: seq<byte>)
    requires Inv(fs) && dir < MaxInodes
    requires Remove(fs, who, dir, name).result.Ok?
    ensures Inv(Remove(fs, who, dir, name).fs)
  {
    var r := Remove(fs, who, dir, name).fs;
    if HasDirBlock(r, dir) {
      var t := DirTable(fs, dir);
      var i :| 0 <= i < EntriesPerBlock && Names(t, i, name) && DirTable(r, dir) == t[i := EmptyEntry];
      RemovedTable(fs, dir, t, i, r);
    }
    OneDirChanged(fs, r, dir);
  }

  lemma {:induction false} CountNone(t: seq<Entry>)
    requires forall i | 0 <= i < |t| :: !Used(t[i])
    ensures Count(t) == 0
  {
    if |t| > 0 {
      CountNone(t[1..]);
    }
  }

  /** A new directory's block is in order: "." and ".." and nothing else. */
  lemma DirBlockOk(self: nat, parent: nat)
    requires 0 < self < U32Limit && 0 < parent < U32Limit
    ensures DistinctNames(Table(DirBlock(self, parent))) && Count(Table(DirBlock(self, parent))) == 2
  {
    var t := Table(DirBlock(self, parent));
    TableOfDirBlock(self, parent);
    assert t[1..][1..] == t[2..];
    CountNone(t[2..]);
  }
}
