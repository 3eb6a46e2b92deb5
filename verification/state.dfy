/** The resident state of the simulator — free-block bitmap, inode table,
    block store and current directory — with the inode-table operations
    (codigo_base/utilidades_fs.c:162-193) and the structural invariants the
    operations keep. */
module State {
  import opened Layout
  import opened Bitmap
  import opened Permissions
  import opened Dirent

  /** An inode record; timestamps are not modelled. */
  datatype Inode = Inode(id: nat, kind: nat, mode: bv16, owner: nat, size: nat, ptrs: seq<nat>)

  /** The all-zero record that marks a free slot. */
  const FreeInode := Inode(0, KindFree, 0, 0, 0, [0, 0, 0, 0])

  datatype FS = FS(bitmap: seq<bv8>, inodes: seq<Inode>, blocks: seq<seq<byte>>, cwd: nat)

  datatype Err =
    | NotFound | PermissionDenied | AlreadyExists | DirectoryFull | NoFreeInode | NoFreeBlock
    | TooLarge | NotADirectory | NotAFile | Protected | NameTooLong | InvalidInode
    | OutOfTable  // an entry names an inode id past the table: the C indexes out of bounds

  datatype Result<T> = Ok(value: T) | Fail(err: Err)

  /** What an operation reports, and the state it leaves. */
  datatype Reply<T> = Reply(result: Result<T>, fs: FS)

  predicate InodeWf(n: Inode) {
    && |n.ptrs| == MaxPointers
    && (forall k | 0 <= k < MaxPointers :: n.ptrs[k] < MaxBlocks)
    && n.kind <= KindDir && n.id < U32Limit && n.size < U32Limit
  }

  /** The shapes of the C arrays. */
  predicate Wf(fs: FS) {
    && WellSized(fs.bitmap)
    && |fs.inodes| == MaxInodes
    && |fs.blocks| == MaxBlocks
    && (forall b | 0 <= b < MaxBlocks :: IsBlock(fs.blocks[b]))
    && (forall n | 0 <= n < MaxInodes :: InodeWf(fs.inodes[n]))
    && fs.cwd < MaxInodes
  }

  predicate Can(who: Identity, n: Inode, req: bv16) {
    Allowed(who, n.owner, n.mode, req)
  }

  function SetInode(fs: FS, id: nat, n: Inode): (r: FS)
    requires Wf(fs) && id < MaxInodes && InodeWf(n)
    ensures Wf(r)
  {
    fs.(inodes := fs.inodes[id := n])
  }

  function SetBlock(fs: FS, b: nat, data: seq<byte>): (r: FS)
    requires Wf(fs) && b < MaxBlocks && IsBlock(data)
    ensures Wf(r)
  {
    fs.(blocks := fs.blocks[b := data])
  }

  /** The entry table of a directory's block (slot 0's block, 0 included). */
  function DirTable(fs: FS, dir: nat): seq<Entry>
    requires Wf(fs) && dir < MaxInodes
  {
    Table(fs.blocks[fs.inodes[dir].ptrs[0]])
  }

  // ---- Inode table ----

  /** inicializar_inode's record: zeroed, then id, kind, mode and owner set;
      size 0 and no blocks. */
  function FreshInode(id: nat, kind: nat, mode: bv16, who: Identity): Inode {
    Inode(id, kind, mode, who.user, 0, [0, 0, 0, 0])
  }

  /** inicializar_inode: slot id now holds the fresh record, and nothing
      else in the state changes. */
  function InitializeInode(fs: FS, id: nat, kind: nat, mode: bv16, who: Identity): (r: FS)
    requires Wf(fs) && id < MaxInodes && kind <= KindDir
    ensures Wf(r)
    ensures r.inodes[id].kind == kind && r.inodes[id].mode == mode && r.inodes[id].owner == who.user
    ensures r.inodes[id].id == id && r.inodes[id].size == 0
    ensures forall k | 0 <= k < MaxPointers :: r.inodes[id].ptrs[k] == 0
    ensures forall j | 0 <= j < MaxInodes && j != id :: r.inodes[j] == fs.inodes[j]
    ensures r.bitmap == fs.bitmap && r.blocks == fs.blocks && r.cwd == fs.cwd
  {
    SetInode(fs, id, FreshInode(id, kind, mode, who))
  }

  predicate IsFreeSlot(fs: FS, i: nat)
    requires Wf(fs) && i < MaxInodes
  {
    fs.inodes[i].kind == KindFree
  }

  function FirstFreeInode(fs: FS, from: nat): (r: nat)
    requires Wf(fs) && 1 <= from <= MaxInodes
    ensures r == 0 || from <= r < MaxInodes
    ensures r != 0 ==> IsFreeSlot(fs, r) && forall j | from <= j < r :: !IsFreeSlot(fs, j)
    ensures r == 0 ==> forall j | from <= j < MaxInodes :: !IsFreeSlot(fs, j)
    decreases MaxInodes - from
  {
    if from == MaxInodes then 0
    else if IsFreeSlot(fs, from) then from
    else FirstFreeInode(fs, from + 1)
  }

  /** alocar_inode: the least free slot from 1 on, or 0 when the table is
      full. The slot is not reserved: only inicializar_inode makes it live. */
  function AllocInode(fs: FS): (r: nat)
    requires Wf(fs)
    ensures r < MaxInodes
    ensures r != 0 ==> IsFreeSlot(fs, r) && forall j | 1 <= j < r :: !IsFreeSlot(fs, j)
    ensures r == 0 <==> forall j | 1 <= j < MaxInodes :: !IsFreeSlot(fs, j)
  {
    FirstFreeInode(fs, 1)
  }

  /** modificar_permissoes: only a live inode 1..99, only for its owner or
      root, and only the nine permission bits are kept. */
  function Chmod(fs: FS, who: Identity, id: nat, requested: bv16): (r: Reply<()>)
    requires Wf(fs)
    ensures Wf(r.fs)
    ensures (id == 0 || id >= MaxInodes || fs.inodes[id].kind == KindFree) ==> r == Reply(Fail(InvalidInode), fs)
    ensures 0 < id < MaxInodes && fs.inodes[id].kind != KindFree ==>
      if who.user == fs.inodes[id].owner || who.user == RootUser then
        r.result.Ok? && r.fs == fs.(inodes := fs.inodes[id := fs.inodes[id].(mode := requested & 0x1FF)])
      else r == Reply(Fail(PermissionDenied), fs)
  {
    if id == 0 || id >= MaxInodes || fs.inodes[id].kind == KindFree then Reply(Fail(InvalidInode), fs)
    else if who.user != fs.inodes[id].owner && who.user != RootUser then Reply(Fail(PermissionDenied), fs)
    else Reply(Ok(()), SetInode(fs, id, fs.inodes[id].(mode := ChmodMode(requested))))
  }

  // ---- Structural invariants ----

  predicate Live(fs: FS, n: nat)
    requires Wf(fs) && n < MaxInodes
  {
    fs.inodes[n].kind != KindFree
  }

  /** (a) Blocks 0 and 1 are always marked in use. */
  predicate ReservedMarked(fs: FS)
    requires Wf(fs)
  {
    Bit(fs.bitmap, 0) && Bit(fs.bitmap, 1)
  }

  /** A live inode points at no block, or at a block from 2 on. */
  predicate PointersInRange(fs: FS)
    requires Wf(fs)
  {
    forall n, k | 0 <= n < MaxInodes && 0 <= k < MaxPointers && Live(fs, n) ::
      fs.inodes[n].ptrs[k] == 0 || 2 <= fs.inodes[n].ptrs[k]
  }

  /** Some live inode points at block b. */
  predicate Referenced(fs: FS, b: nat)
    requires Wf(fs)
  {
    exists n, k | 0 <= n < MaxInodes && 0 <= k < MaxPointers :: Live(fs, n) && fs.inodes[n].ptrs[k] == b
  }

  /** (b) A data block's bit is set exactly when a live inode points at it ... */
  predicate BitmapExact(fs: FS)
    requires Wf(fs)
  {
    forall b | 2 <= b < MaxBlocks :: Bit(fs.bitmap, b) <==> Referenced(fs, b)
  }

  /** ... and never more than one pointer of a live inode does. */
  predicate NoSharing(fs: FS)
    requires Wf(fs)
  {
    forall n1, k1, n2, k2 |
      && 0 <= n1 < MaxInodes && 0 <= k1 < MaxPointers && 0 <= n2 < MaxInodes && 0 <= k2 < MaxPointers
      && Live(fs, n1) && Live(fs, n2) && fs.inodes[n1].ptrs[k1] != 0 && fs.inodes[n1].ptrs[k1] == fs.inodes[n2].ptrs[k2]
      :: n1 == n2 && k1 == k2
  }

  /** (c) A free slot points at no block. */
  predicate FreeSlotsEmpty(fs: FS)
    requires Wf(fs)
  {
    forall n, k | 0 <= n < MaxInodes && 0 <= k < MaxPointers && !Live(fs, n) :: fs.inodes[n].ptrs[k] == 0
  }

  /** (d) and (e) for one directory: distinct names, and 32 bytes of size per
      used entry. */
  predicate DirOk(n: Inode, blk: seq<byte>)
    requires IsBlock(blk)
  {
    var t := Table(blk);
    DistinctNames(t) && n.size == EntrySize * Count(t)
  }

  predicate HasDirBlock(fs: FS, n: nat)
    requires Wf(fs) && n < MaxInodes
  {
    fs.inodes[n].kind == KindDir && fs.inodes[n].ptrs[0] != 0
  }

  /** (d), (e) for every live directory that has its entry block. */
  predicate DirsOk(fs: FS)
    requires Wf(fs)
  {
    forall n | 0 <= n < MaxInodes && HasDirBlock(fs, n) :: DirOk(fs.inodes[n], fs.blocks[fs.inodes[n].ptrs[0]])
  }

  /** The allocation invariants (a) to (c). */
  predicate AllocOk(fs: FS)
    requires Wf(fs)
  {
    ReservedMarked(fs) && PointersInRange(fs) && BitmapExact(fs) && NoSharing(fs) && FreeSlotsEmpty(fs)
  }

  /** The whole invariant; the working directory is never inode 0 either
      (the shell starts at 1 and cd only moves to ids an entry names). */
  predicate Inv(fs: FS) {
    Wf(fs) && AllocOk(fs) && DirsOk(fs) && fs.cwd != 0
  }
}
