/** The directory engine: lookup, insert and remove over a directory's one
    entry block, root and mkdir initialisation, and cd
    (codigo_base/operacoes_dir.c:19-251). */
module Directory {
  import opened Layout
  import opened Bitmap
  import opened Permissions
  import opened Dirent
  import opened State

  /** Entry i is used and carries `name`. */
  predicate Names(t: seq<Entry>, i: nat, name: seq<byte>)
    requires i < |t|
  {
    Used(t[i]) && t[i].name == name
  }

  /** buscar_entrada: the inode id of the first used entry called `name`;
      0 for directory id 0, for a directory whose slot-0 pointer is 0, or
      when no entry matches. */
  function Lookup(fs: FS, dir: nat, name: seq<byte>): (r: nat)
    requires Wf(fs) && dir < MaxInodes
    ensures r < U32Limit
    ensures dir == 0 || fs.inodes[dir].ptrs[0] == 0 ==> r == 0
    ensures dir != 0 && fs.inodes[dir].ptrs[0] != 0 ==>
      var t := DirTable(fs, dir);
      && (r == 0 ==> forall i | 0 <= i < EntriesPerBlock :: !Names(t, i, name))
      && (r != 0 ==> exists i | 0 <= i < EntriesPerBlock ::
            Names(t, i, name) && t[i].ino == r && forall j | 0 <= j < i :: !Names(t, j, name))
  {
    if dir == 0 || fs.inodes[dir].ptrs[0] == 0 then 0
    else
      var t := DirTable(fs, dir);
      var i := FindName(t, name, 0);
      if i == EntriesPerBlock then 0 else t[i].ino
  }

  /** The size field after one entry is added or removed (uint32_t). */
  function Grow(size: nat): nat { (size + EntrySize) % U32Limit }
  function Shrink(size: nat): nat { (size - EntrySize) % U32Limit }

  /** adicionar_entrada_diretorio. Its checks, in the source's order: ids
      not 0, a directory, the name not present, an empty slot, and only
      then write permission. */
  function Insert(fs: FS, who: Identity, dir: nat, name: seq<byte>, target: nat): (r: Reply<()>)
    requires Wf(fs) && dir < MaxInodes && target < U32Limit && CString(name) && |name| < NameMax
    ensures Wf(r.fs)
    ensures r.result.Fail? ==> r.fs == fs
    ensures dir == 0 || target == 0 ==> r.result == Fail(InvalidInode)
    ensures dir != 0 && target != 0 ==>
      var t := DirTable(fs, dir);
      if fs.inodes[dir].kind != KindDir then r.result == Fail(NotADirectory)
      else if Lookup(fs, dir, name) != 0 then r.result == Fail(AlreadyExists)
      else if forall i | 0 <= i < EntriesPerBlock :: Used(t[i]) then r.result == Fail(DirectoryFull)
      else if !Can(who, fs.inodes[dir], PermW) then r.result == Fail(PermissionDenied)
      else r.result.Ok?
    ensures r.result.Ok? ==>
      var t := DirTable(fs, dir);
      var blk := fs.inodes[dir].ptrs[0];
      && r.fs.bitmap == fs.bitmap && r.fs.cwd == fs.cwd
      && r.fs.inodes == fs.inodes[dir := fs.inodes[dir].(size := Grow(fs.inodes[dir].size))]
      && (forall b | 0 <= b < MaxBlocks && b != blk :: r.fs.blocks[b] == fs.blocks[b])
      && exists i | 0 <= i < EntriesPerBlock ::
           && !Used(t[i]) && (forall j | 0 <= j < i :: Used(t[j]))
           && DirTable(r.fs, dir) == t[i := Entry(name, target)]
  {
    if dir == 0 || target == 0 then Reply(Fail(InvalidInode), fs)
    else if fs.inodes[dir].kind != KindDir then Reply(Fail(NotADirectory), fs)
    else if Lookup(fs, dir, name) != 0 then Reply(Fail(AlreadyExists), fs)
    else
      var b := fs.inodes[dir].ptrs[0];
      var t := Table(fs.blocks[b]);
      var i := FirstEmpty(t, 0);
      if i == EntriesPerBlock then Reply(Fail(DirectoryFull), fs)
      else if !Can(who, fs.inodes[dir], PermW) then Reply(Fail(PermissionDenied), fs)
      else
        TableAfterPut(fs.blocks[b], i, name, target);
        var fs1 := SetBlock(fs, b, PutEntry(fs.blocks[b], i, name, target));
        Reply(Ok(()), SetInode(fs1, dir, fs.inodes[dir].(size := Grow(fs.inodes[dir].size))))
  }

  /** remover_entrada_diretorio. Checks, in order: id not 0, write
      permission, the protected names "." and "..", presence. On success
      the entry is zeroed and its inode id returned; the inode is not freed. */
  function Remove(fs: FS, who: Identity, dir: nat, name: seq<byte>): (r: Reply<nat>)
    requires Wf(fs) && dir < MaxInodes
    ensures Wf(r.fs)
    ensures r.result.Fail? ==> r.fs == fs
    ensures dir == 0 ==> r.result == Fail(InvalidInode)
    ensures dir != 0 ==>
      var t := DirTable(fs, dir);
      if !Can(who, fs.inodes[dir], PermW) then r.result == Fail(PermissionDenied)
      else if name == Dot || name == DotDot then r.result == Fail(Protected)
      else if forall i | 0 <= i < EntriesPerBlock :: !Names(t, i, name) then r.result == Fail(NotFound)
      else r.result.Ok?
    ensures r.result.Ok? ==>
      var t := DirTable(fs, dir);
      var blk := fs.inodes[dir].ptrs[0];
      && r.fs.bitmap == fs.bitmap && r.fs.cwd == fs.cwd
      && r.fs.inodes == fs.inodes[dir := fs.inodes[dir].(size := Shrink(fs.inodes[dir].size))]
      && (forall b | 0 <= b < MaxBlocks && b != blk :: r.fs.blocks[b] == fs.blocks[b])
      && exists i | 0 <= i < EntriesPerBlock ::
           && Names(t, i, name) && (forall j | 0 <= j < i :: !Names(t, j, name))
           && r.result.value == t[i].ino
           && DirTable(r.fs, dir) == t[i := EmptyEntry]
  {
    if dir == 0 then Reply(Fail(InvalidInode), fs)
    else if !Can(who, fs.inodes[dir], PermW) then Reply(Fail(PermissionDenied), fs)
    else if name == Dot || name == DotDot then Reply(Fail(Protected), fs)
    else
      var b := fs.inodes[dir].ptrs[0];
      var t := Table(fs.blocks[b]);
      var i := FindName(t, name, 0);
      if i == EntriesPerBlock then Reply(Fail(NotFound), fs)
      else
        assert Names(t, i, name);
        TableAfterClear(fs.blocks[b], i);
        var fs1 := SetBlock(fs, b, ClearSlot(fs.blocks[b], i));
        Reply(Ok(t[i].ino), SetInode(fs1, dir, fs.inodes[dir].(size := Shrink(fs.inodes[dir].size))))
  }

  /** Some block from 2 on is free. */
  predicate HasFreeBlock(fs: FS)
    requires Wf(fs)
  {
    exists b | 2 <= b < MaxBlocks :: !Bit(fs.bitmap, b)
  }

  /** Gives directory `dir` a freshly granted entry block holding "." -> dir
      and ".." -> parent, and size 64. Shared by root initialisation and
      mkdir. */
  function AttachDirBlock(fs: FS, dir: nat, parent: nat, g: Grant): (r: FS)
    requires Wf(fs) && dir < MaxInodes && parent < MaxInodes
    requires WellSized(g.bitmap) && 2 <= g.id < MaxBlocks
    ensures Wf(r)
    ensures r.bitmap == g.bitmap && r.cwd == fs.cwd
    ensures r.inodes == fs.inodes[dir := fs.inodes[dir].(ptrs := fs.inodes[dir].ptrs[0 := g.id], size := 2 * EntrySize)]
    ensures r.blocks == fs.blocks[g.id := DirBlock(dir, parent)]
  {
    var n := fs.inodes[dir];
    var fs1 := fs.(bitmap := g.bitmap);
    var fs2 := SetInode(fs1, dir, n.(ptrs := n.ptrs[0 := g.id], size := 2 * EntrySize));
    SetBlock(fs2, g.id, DirBlock(dir, parent))
  }

  /** inicializar_diretorio_raiz: the first free block becomes root's entry
      block with "." and ".." both naming root. The source exits the process
      when no block is free; here that case is excluded by the precondition. */
  function InitRoot(fs: FS, root: nat): (r: FS)
    requires Wf(fs) && root < MaxInodes && HasFreeBlock(fs)
    ensures Wf(r)
    ensures var b := r.inodes[root].ptrs[0];
      && 2 <= b < MaxBlocks && !Bit(fs.bitmap, b) && (forall j | 2 <= j < b :: Bit(fs.bitmap, j))
      && (forall j | 0 <= j < MaxBlocks :: Bit(r.bitmap, j) == (j == b || Bit(fs.bitmap, j)))
      && r.inodes[root].size == 2 * EntrySize
      && Table(r.blocks[b])[0] == Entry(Dot, root) && Table(r.blocks[b])[1] == Entry(DotDot, root)
      && (forall i | 2 <= i < EntriesPerBlock :: !Used(Table(r.blocks[b])[i]))
    ensures var b := r.inodes[root].ptrs[0];
      && r.cwd == fs.cwd
      && r.inodes == fs.inodes[root := fs.inodes[root].(ptrs := fs.inodes[root].ptrs[0 := b], size := 2 * EntrySize)]
      && (forall j | 0 <= j < MaxBlocks && j != b :: r.blocks[j] == fs.blocks[j])
  {
    var g := Allocate(fs.bitmap);
    TableOfDirBlock(root, root);
    AttachDirBlock(fs, root, root, g)
  }

  /** criar_diretorio. Checks, in order: name length, write permission on
      the current directory, a free inode, a free block, then the insert.
      Failures after the inode or the block was taken are not rolled back:
      without a block the new directory stays live with no entry block, and
      a failed insert leaves it live and unlinked. */
  function Mkdir(fs: FS, who: Identity, name: seq<byte>): (r: Reply<nat>)
    requires Wf(fs) && CString(name)
    ensures Wf(r.fs)
    ensures r.fs.cwd == fs.cwd
    ensures |name| >= NameMax ==> r == Reply(Fail(NameTooLong), fs)
    ensures |name| < NameMax && !Can(who, fs.inodes[fs.cwd], PermW) ==> r == Reply(Fail(PermissionDenied), fs)
    ensures |name| < NameMax && Can(who, fs.inodes[fs.cwd], PermW) ==>
      var n := AllocInode(fs);
      if n == 0 then r == Reply(Fail(NoFreeInode), fs)
      else
        && r.fs.inodes[n].kind == KindDir && r.fs.inodes[n].mode == DirMode && r.fs.inodes[n].owner == who.user
        && (r.result == Fail(NoFreeBlock) <==> Allocate(fs.bitmap).id == 0)
        && (r.result == Fail(NoFreeBlock) ==> r.fs.inodes[n].ptrs == [0, 0, 0, 0])
        && (r.result.Ok? ==> r.result.value == n)
    ensures r.result.Ok? && r.fs.inodes[fs.cwd].ptrs[0] != 0 ==> Lookup(r.fs, fs.cwd, name) == r.result.value
    ensures r.result.Ok? ==> MadeDir(fs, r.fs, r.result.value)
  {
    if |name| >= NameMax then Reply(Fail(NameTooLong), fs)
    else if !Can(who, fs.inodes[fs.cwd], PermW) then Reply(Fail(PermissionDenied), fs)
    else
      var n := AllocInode(fs);
      if n == 0 then Reply(Fail(NoFreeInode), fs)
      else MkdirAt(fs, who, name, n)
  }

  /** The part of criar_diretorio after inode n was chosen. */
  function MkdirAt(fs: FS, who: Identity, name: seq<byte>, n: nat): (r: Reply<nat>)
    requires Wf(fs) && CString(name) && |name| < NameMax && 0 < n < MaxInodes
    ensures Wf(r.fs)
    ensures r.fs.cwd == fs.cwd
    ensures r.fs.inodes[n].kind == KindDir && r.fs.inodes[n].mode == DirMode && r.fs.inodes[n].owner == who.user
    ensures r.result == Fail(NoFreeBlock) <==> Allocate(fs.bitmap).id == 0
    ensures r.result == Fail(NoFreeBlock) ==> r.fs.inodes[n].ptrs == [0, 0, 0, 0]
    ensures r.result.Ok? ==> r.result.value == n
    ensures r.result.Ok? && r.fs.inodes[fs.cwd].ptrs[0] != 0 ==> Lookup(r.fs, fs.cwd, name) == n
    ensures r.result != Fail(NoFreeBlock) ==> MadeDir(fs, r.fs, n)
  {
    var fs1 := InitializeInode(fs, n, KindDir, DirMode, who);
    var g := Allocate(fs1.bitmap);
    if g.id == 0 then Reply(Fail(NoFreeBlock), fs1)
    else
      var fs2 := AttachDirBlock(fs1, n, fs.cwd, g);
      var ins := Insert(fs2, who, fs.cwd, name, n);
      NewDirMade(fs, fs1, fs2, who, name, n);
      if ins.result.Fail? then
        Reply(Fail(ins.result.err), ins.fs)
      else
        InsertedFound(fs2, who, fs.cwd, name, n);
        Reply(Ok(n), ins.fs)
  }

  /** What criar_diretorio leaves behind once inode n got its block g, the
      first free one: only g's bit is newly set; n's slot 0 holds g and the
      other slots are empty; only n and the current directory's record, and
      only g and the current directory's entry block, may differ. Unless
      the current directory is n itself or already uses g, the new
      directory has size 64, "." leads to n and ".." to the current
      directory. */
  predicate MadeDir(fs: FS, r: FS, n: nat)
    requires Wf(fs) && Wf(r) && n < MaxInodes
  {
    var g := Allocate(fs.bitmap).id;
    var parent := fs.cwd;
    && g != 0 && !Bit(fs.bitmap, g)
    && (forall b | 0 <= b < MaxBlocks :: Bit(r.bitmap, b) == (b == g || Bit(fs.bitmap, b)))
    && r.inodes[n].ptrs == [g, 0, 0, 0]
    && (forall j | 0 <= j < MaxInodes && j != n && j != parent :: r.inodes[j] == fs.inodes[j])
    && (forall b | 0 <= b < MaxBlocks && b != g && b != fs.inodes[parent].ptrs[0] :: r.blocks[b] == fs.blocks[b])
    && (n != parent && fs.inodes[parent].ptrs[0] != g ==>
          && r.inodes[n].size == 2 * EntrySize
          && Lookup(r, n, Dot) == n && Lookup(r, n, DotDot) == parent)
  }

  /** The attach-then-insert steps of criar_diretorio leave MadeDir behind,
      whether or not the insert succeeds. */
  lemma NewDirMade(fs: FS, fs1: FS, fs2: FS, who: Identity, name: seq<byte>, n: nat)
    requires Wf(fs) && CString(name) && |name| < NameMax && 0 < n < MaxInodes
    requires fs1 == InitializeInode(fs, n, KindDir, DirMode, who) && Allocate(fs1.bitmap).id != 0
    requires fs2 == AttachDirBlock(fs1, n, fs.cwd, Allocate(fs1.bitmap))
    ensures MadeDir(fs, Insert(fs2, who, fs.cwd, name, n).fs, n)
  {
    var g := Allocate(fs1.bitmap).id;
    var r := Insert(fs2, who, fs.cwd, name, n).fs;
    assert r.inodes[n].ptrs == fs2.inodes[n].ptrs == [g, 0, 0, 0];
    assert fs2.inodes[fs.cwd].ptrs[0] == if n == fs.cwd then g else fs.inodes[fs.cwd].ptrs[0];
    if n != fs.cwd && fs.inodes[fs.cwd].ptrs[0] != g {
      assert r.inodes[n] == fs2.inodes[n];
      assert r.blocks[g] == fs2.blocks[g] == DirBlock(n, fs.cwd);
      DirBlockLinks(r, n, fs.cwd);
    }
  }

  /** A directory whose entry block is a fresh DirBlock(n, parent) resolves
      "." to itself and ".." to parent (0, when parent is 0: the entry is
      then unused and the name not found). */
  lemma DirBlockLinks(fs: FS, n: nat, parent: nat)
    requires Wf(fs) && 0 < n < MaxInodes && parent < MaxInodes && fs.inodes[n].ptrs[0] != 0
    requires fs.blocks[fs.inodes[n].ptrs[0]] == DirBlock(n, parent)
    ensures Lookup(fs, n, Dot) == n
    ensures Lookup(fs, n, DotDot) == parent
  {
    TableOfDirBlock(n, parent);
    var t := DirTable(fs, n);
    assert Names(t, 0, Dot);
    assert !Names(t, 0, DotDot);
    if parent != 0 {
      assert Names(t, 1, DotDot);
    } else {
      assert forall i | 0 <= i < EntriesPerBlock :: !Names(t, i, DotDot);
    }
  }

  /** After a successful insert into a directory that has its entry block,
      lookup finds the new name. */
  lemma InsertedFound(fs: FS, who: Identity, dir: nat, name: seq<byte>, target: nat)
    requires Wf(fs) && dir < MaxInodes && target < U32Limit && CString(name) && |name| < NameMax
    requires Insert(fs, who, dir, name, target).result.Ok?
    ensures fs.inodes[dir].ptrs[0] != 0 ==> Lookup(Insert(fs, who, dir, name, target).fs, dir, name) == target
  {
    if fs.inodes[dir].ptrs[0] == 0 {
      return;
    }
    var r := Insert(fs, who, dir, name, target);
    var t := DirTable(fs, dir);
    assert Lookup(fs, dir, name) == 0;
    assert forall j | 0 <= j < EntriesPerBlock :: !Names(t, j, name);
    var i :| 0 <= i < EntriesPerBlock && !Used(t[i]) && (forall j | 0 <= j < i :: Used(t[j]))
      && DirTable(r.fs, dir) == t[i := Entry(name, target)];
    assert r.fs.inodes[dir].ptrs[0] == fs.inodes[dir].ptrs[0];
    LookupAfterPlacing(r.fs, dir, name, t, i, target);
  }

  /** If the table is `t` with only entry i newly set to (name, target) and
      `t` had no used entry called name, lookup finds target. */
  lemma LookupAfterPlacing(fs: FS, dir: nat, name: seq<byte>, t: seq<Entry>, i: nat, target: nat)
    requires Wf(fs) && 0 < dir < MaxInodes && fs.inodes[dir].ptrs[0] != 0
    requires |t| == EntriesPerBlock && i < EntriesPerBlock && target != 0
    requires forall j | 0 <= j < EntriesPerBlock :: !Names(t, j, name)
    requires DirTable(fs, dir) == t[i := Entry(name, target)]
    ensures Lookup(fs, dir, name) == target
  {
    var u := DirTable(fs, dir);
    assert Names(u, i, name);
    var k := FindName(u, name, 0);
    if k < i {
      assert Names(u, k, name);
      assert u[k] == t[k];
      assert Names(t, k, name);
    }
    assert u[k].ino == target;
  }

  /** mudar_diretorio: the name must resolve, then name a directory, then
      grant execute; otherwise the current directory stays. */
  function Cd(fs: FS, who: Identity, name: seq<byte>): (r: Reply<()>)
    requires Wf(fs)
    ensures Wf(r.fs)
    ensures r.fs == fs.(cwd := r.fs.cwd)
    ensures var id := Lookup(fs, fs.cwd, name);
      if id == 0 then r.result == Fail(NotFound)
      else if id >= MaxInodes then r.result == Fail(OutOfTable)
      else if fs.inodes[id].kind != KindDir then r.result == Fail(NotADirectory)
      else if !Can(who, fs.inodes[id], PermX) then r.result == Fail(PermissionDenied)
      else r.result.Ok? && r.fs.cwd == id
    ensures r.result.Fail? ==> r.fs == fs
  {
    var id := Lookup(fs, fs.cwd, name);
    if id == 0 then Reply(Fail(NotFound), fs)
    else if id >= MaxInodes then Reply(Fail(OutOfTable), fs)
    else if fs.inodes[id].kind != KindDir then Reply(Fail(NotADirectory), fs)
    else if !Can(who, fs.inodes[id], PermX) then Reply(Fail(PermissionDenied), fs)
    else Reply(Ok(()), fs.(cwd := id))
  }
}
