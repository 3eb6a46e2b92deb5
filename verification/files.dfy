/** File life cycle in the working directory: criar_arquivo, deletar_arquivo,
    copiar_arquivo and renomear_mover (codigo_base/operacoes_arq.c). */
module Files {
  import opened Layout
  import opened Bitmap
  import opened Permissions
  import opened Dirent
  import opened State
  import opened Directory
  import opened Content

  /** criar_arquivo. Checks, in order: the name fits (strlen < 28), write
      permission on the working directory, a free inode. The inode is set up
      as a regular file rw-r--r-- owned by the caller, then linked into the
      working directory. When linking fails only the kind is reset to free:
      the mode and owner written by the initialisation stay. */
  function CreateFile(fs: FS, who: Identity, name: seq<byte>): (r: Reply<nat>)
    requires Wf(fs) && CString(name)
    ensures Wf(r.fs)
    ensures |name| >= NameMax ==> r == Reply(Fail(NameTooLong), fs)
    ensures |name| < NameMax && !Can(who, fs.inodes[fs.cwd], PermW) ==> r == Reply(Fail(PermissionDenied), fs)
    ensures |name| < NameMax && Can(who, fs.inodes[fs.cwd], PermW) && AllocInode(fs) == 0 ==>
      r == Reply(Fail(NoFreeInode), fs)
    ensures |name| < NameMax && Can(who, fs.inodes[fs.cwd], PermW) && AllocInode(fs) != 0 ==>
      var n := AllocInode(fs);
      && r.fs.bitmap == fs.bitmap && r.fs.cwd == fs.cwd
      && (forall j | 0 <= j < MaxInodes && j != n && j != fs.cwd :: r.fs.inodes[j] == fs.inodes[j])
      && (r.result.Ok? ==>
            && r.result.value == n && r.fs.inodes[n] == FreshInode(n, KindFile, FileMode, who)
            && (r.fs.inodes[fs.cwd].ptrs[0] != 0 ==> Lookup(r.fs, fs.cwd, name) == n))
      && (r.result.Fail? ==>
            && r.fs.blocks == fs.blocks
            && r.fs.inodes == fs.inodes[n := FreshInode(n, KindFile, FileMode, who).(kind := KindFree)])
      && (fs.cwd != n && fs.inodes[fs.cwd].kind == KindDir && Lookup(fs, fs.cwd, name) != 0 ==>
            r.result == Fail(AlreadyExists))
  {
    if |name| >= NameMax then Reply(Fail(NameTooLong), fs)
    else if !Can(who, fs.inodes[fs.cwd], PermW) then Reply(Fail(PermissionDenied), fs)
    else
      var n := AllocInode(fs);
      if n == 0 then Reply(Fail(NoFreeInode), fs)
      else
        var fs1 := InitializeInode(fs, n, KindFile, FileMode, who);
        var ins := Insert(fs1, who, fs.cwd, name, n);
        if ins.result.Ok? then
          InsertedFound(fs1, who, fs.cwd, name, n);
          Reply(Ok(n), ins.fs)
        else Reply(Fail(ins.result.err), SetInode(fs1, n, fs1.inodes[n].(kind := KindFree)))
  }

  /** The release loop of deletar_arquivo: every set pointer from slot k on
      is handed back to the bitmap. */
  function ReleaseAll(bm: seq<bv8>, p: seq<nat>, k: nat): (r: seq<bv8>)
    requires WellSized(bm) && k <= |p| && forall m | 0 <= m < |p| :: p[m] < MaxBlocks
    ensures WellSized(r)
    ensures forall b | 0 <= b < MaxBlocks :: Bit(r, b) == (Bit(bm, b) && !HeldBy(p, k, |p|, b))
    decreases |p| - k
  {
    if k == |p| then bm
    else
      var r := ReleaseAll(Release(bm, p[k]), p, k + 1);
      assert forall b | 0 <= b < MaxBlocks :: Bit(r, b) == (Bit(bm, b) && !HeldBy(p, k, |p|, b)) by {
        forall b | 0 <= b < MaxBlocks
          ensures Bit(r, b) == (Bit(bm, b) && !HeldBy(p, k, |p|, b))
        {
          HeldByStep(p, k, |p|, b);
        }
      }
      r
  }

  /** deletar_arquivo. Checks write permission on the working directory,
      then removes the entry (which fails on ".", ".." and unknown names); the
      removed id's blocks are released and its record is zeroed. The kind is
      not checked, so a directory goes the same way, entries and all. */
  function Delete(fs: FS, who: Identity, name: seq<byte>): (r: Reply<()>)
    requires Wf(fs)
    ensures Wf(r.fs)
    ensures !Can(who, fs.inodes[fs.cwd], PermW) ==> r == Reply(Fail(PermissionDenied), fs)
    ensures Can(who, fs.inodes[fs.cwd], PermW) && Remove(fs, who, fs.cwd, name).result.Fail? ==>
      r == Reply(Fail(Remove(fs, who, fs.cwd, name).result.err), fs)
    ensures Can(who, fs.inodes[fs.cwd], PermW) && Remove(fs, who, fs.cwd, name).result.Ok? ==>
      var rem := Remove(fs, who, fs.cwd, name);
      var id := rem.result.value;
      if id >= MaxInodes then r == Reply(Fail(OutOfTable), rem.fs)
      else
        var p := rem.fs.inodes[id].ptrs;
        && r.result.Ok?
        && r.fs.inodes == rem.fs.inodes[id := FreeInode]
        && r.fs.blocks == rem.fs.blocks && r.fs.cwd == fs.cwd
        && (forall b | 0 <= b < MaxBlocks :: Bit(r.fs.bitmap, b) == (Bit(fs.bitmap, b) && !HeldBy(p, 0, MaxPointers, b)))
  {
    if !Can(who, fs.inodes[fs.cwd], PermW) then Reply(Fail(PermissionDenied), fs)
    else
      var rem := Remove(fs, who, fs.cwd, name);
      if rem.result.Fail? then Reply(Fail(rem.result.err), fs)
      else
        var id := rem.result.value;
        if id >= MaxInodes then Reply(Fail(OutOfTable), rem.fs)
        else
          var bm := ReleaseAll(rem.fs.bitmap, rem.fs.inodes[id].ptrs, 0);
          Reply(Ok(()), SetInode(rem.fs.(bitmap := bm), id, FreeInode))
  }

  /** renomear_mover. Checks write permission on the working directory,
      then renames the first used entry called `from` in its block (block 0
      when the directory has none) to `to`, cut to 27 bytes. Nothing checks
      that `to` is new, nor protects "." and "..". */
  function Rename(fs: FS, who: Identity, from: seq<byte>, to: seq<byte>): (r: Reply<()>)
    requires Wf(fs) && CString(to)
    ensures Wf(r.fs)
    ensures r.fs.bitmap == fs.bitmap && r.fs.inodes == fs.inodes && r.fs.cwd == fs.cwd
    ensures var t := DirTable(fs, fs.cwd);
      if !Can(who, fs.inodes[fs.cwd], PermW) then r == Reply(Fail(PermissionDenied), fs)
      else if forall i | 0 <= i < EntriesPerBlock :: !Names(t, i, from) then r == Reply(Fail(NotFound), fs)
      else
        && r.result.Ok?
        && (forall b | 0 <= b < MaxBlocks && b != fs.inodes[fs.cwd].ptrs[0] :: r.fs.blocks[b] == fs.blocks[b])
        && exists i | 0 <= i < EntriesPerBlock ::
             && Names(t, i, from) && (forall j | 0 <= j < i :: !Names(t, j, from))
             && DirTable(r.fs, fs.cwd) == t[i := Entry(StoredName(to), t[i].ino)]
  {
    var b := fs.inodes[fs.cwd].ptrs[0];
    if !Can(who, fs.inodes[fs.cwd], PermW) then Reply(Fail(PermissionDenied), fs)
    else
      var t := Table(fs.blocks[b]);
      var i := FindName(t, from, 0);
      if i == EntriesPerBlock then Reply(Fail(NotFound), fs)
      else
        TableAfterRename(fs.blocks[b], i, to);
        assert DirTable(fs, fs.cwd) == t && Names(t, i, from);
        Reply(Ok(()), SetBlock(fs, b, RenameSlot(fs.blocks[b], i, to)))
  }

  /** One round of copiar_arquivo's block loop: when the source's slot k is
      set, a fresh block gets a copy of its 4096 bytes and becomes slot k of
      the copy. Not ok when no block is free. */
  function CopySlot(fs: FS, s: nat, d: nat, k: nat): (r: Filled)
    requires Wf(fs) && s < MaxInodes && d < MaxInodes && k < MaxPointers
    ensures Wf(r.fs) && SameButPtrs(fs, r.fs, d)
    ensures var sp, p, q := fs.inodes[s].ptrs[k], fs.inodes[d].ptrs, r.fs.inodes[d].ptrs;
      && (sp == 0 ==> r == Filled(true, fs))
      && (!r.ok ==> sp != 0 && r.fs == fs && forall b | 2 <= b < MaxBlocks :: Bit(fs.bitmap, b))
      && (sp != 0 && r.ok ==>
            && q == p[k := q[k]] && q[k] != 0 && !Bit(fs.bitmap, q[k])
            && (forall b | 0 <= b < MaxBlocks :: Bit(r.fs.bitmap, b) == (b == q[k] || Bit(fs.bitmap, b)))
            && r.fs.blocks == fs.blocks[q[k] := fs.blocks[sp]])
  {
    var sp := fs.inodes[s].ptrs[k];
    if sp == 0 then Filled(true, fs)
    else
      var g := Allocate(fs.bitmap);
      if g.id == 0 then Filled(false, fs)
      else Filled(true, SetPtr(SetBlock(fs.(bitmap := g.bitmap), g.id, fs.blocks[sp]), d, k, g.id))
  }

  /** copiar_arquivo's block loop from slot k; it stops at the first slot
      for which no block is left. */
  function Clone(fs: FS, s: nat, d: nat, k: nat): (r: Filled)
    requires Wf(fs) && s < MaxInodes && d < MaxInodes && k <= MaxPointers
    ensures Wf(r.fs) && SameButPtrs(fs, r.fs, d)
    ensures var sp, p, q := fs.inodes[s].ptrs, fs.inodes[d].ptrs, r.fs.inodes[d].ptrs;
      && (forall m | 0 <= m < k :: q[m] == p[m])
      && (d != s ==> forall m | k <= m < MaxPointers && sp[m] == 0 :: q[m] == p[m])
      && (d != s && r.ok ==> forall m | k <= m < MaxPointers && sp[m] != 0 :: q[m] != 0)
      && (!r.ok ==> forall b | 2 <= b < MaxBlocks :: Bit(r.fs.bitmap, b))
    decreases MaxPointers - k
  {
    if k == MaxPointers then Filled(true, fs)
    else
      var c := CopySlot(fs, s, d, k);
      if !c.ok then c else Clone(c.fs, s, d, k + 1)
  }

  /** The loop sets exactly the bits of the blocks it puts into empty slots
      of the copy, and those blocks were free. */
  lemma {:induction false} CloneBitmap(fs: FS, s: nat, d: nat, k: nat)
    requires Wf(fs) && s < MaxInodes && d < MaxInodes && k <= MaxPointers
    requires forall m | k <= m < MaxPointers :: fs.inodes[d].ptrs[m] == 0
    ensures var r := Clone(fs, s, d, k);
      var p, q := fs.inodes[d].ptrs, r.fs.inodes[d].ptrs;
      && (forall b | 0 <= b < MaxBlocks :: Bit(r.fs.bitmap, b) == (Bit(fs.bitmap, b) || GrantedTo(p, q, k, MaxPointers, b)))
      && (forall m | k <= m < MaxPointers :: p[m] == 0 && q[m] != 0 ==> !Bit(fs.bitmap, q[m]))
    decreases MaxPointers - k
  {
    if k < MaxPointers {
      var c := CopySlot(fs, s, d, k);
      if c.ok {
        CloneBitmap(c.fs, s, d, k + 1);
        var r := Clone(c.fs, s, d, k + 1);
        var p, p1, q := fs.inodes[d].ptrs, c.fs.inodes[d].ptrs, r.fs.inodes[d].ptrs;
        forall b | 0 <= b < MaxBlocks
          ensures Bit(r.fs.bitmap, b) == (Bit(fs.bitmap, b) || GrantedTo(p, q, k, MaxPointers, b))
        {
          GrantedToStep(p, q, k, MaxPointers, b);
          GrantedToSame(p1, p, q, k + 1, MaxPointers, b);
        }
        forall m | k + 1 <= m < MaxPointers && p[m] == 0 && q[m] != 0
          ensures !Bit(fs.bitmap, q[m])
        {
          assert !Bit(c.fs.bitmap, q[m]);
        }
      } else {
        forall b | 0 <= b < MaxBlocks
          ensures !GrantedTo(fs.inodes[d].ptrs, fs.inodes[d].ptrs, k, MaxPointers, b)
        {
        }
      }
    }
  }

  /** The loop writes only blocks that were free: marked blocks keep their
      bytes and stay marked. */
  lemma {:induction false} CloneKeepsMarked(fs: FS, s: nat, d: nat, k: nat)
    requires Wf(fs) && s < MaxInodes && d < MaxInodes && k <= MaxPointers
    ensures var r := Clone(fs, s, d, k);
      forall b | 0 <= b < MaxBlocks && Bit(fs.bitmap, b) :: Bit(r.fs.bitmap, b) && r.fs.blocks[b] == fs.blocks[b]
    decreases MaxPointers - k
  {
    if k < MaxPointers {
      var c := CopySlot(fs, s, d, k);
      if c.ok {
        CloneKeepsMarked(c.fs, s, d, k + 1);
      }
    }
  }

  /** With the source's blocks marked and the copy's slots from k empty,
      every slot the loop fills holds the bytes of the source's slot. */
  lemma {:induction false} CloneContent(fs: FS, s: nat, d: nat, k: nat)
    requires Wf(fs) && s < MaxInodes && d < MaxInodes && k <= MaxPointers && d != s
    requires forall m | 0 <= m < MaxPointers && fs.inodes[s].ptrs[m] != 0 :: Bit(fs.bitmap, fs.inodes[s].ptrs[m])
    requires forall m | k <= m < MaxPointers :: fs.inodes[d].ptrs[m] == 0
    ensures var r := Clone(fs, s, d, k);
      var sp, q := fs.inodes[s].ptrs, r.fs.inodes[d].ptrs;
      forall m | k <= m < MaxPointers && q[m] != 0 :: sp[m] != 0 && r.fs.blocks[q[m]] == fs.blocks[sp[m]]
    decreases MaxPointers - k
  {
    if k < MaxPointers {
      var c := CopySlot(fs, s, d, k);
      var sp := fs.inodes[s].ptrs;
      if c.ok {
        assert c.fs.inodes[s].ptrs == sp;
        CopySlotKeepsSources(fs, s, d, k);
        CloneContent(c.fs, s, d, k + 1);
        CloneKeepsMarked(c.fs, s, d, k + 1);
        var r := Clone(c.fs, s, d, k + 1);
        assert r == Clone(fs, s, d, k);
        var q := r.fs.inodes[d].ptrs;
        forall m | k <= m < MaxPointers && q[m] != 0
          ensures sp[m] != 0 && r.fs.blocks[q[m]] == fs.blocks[sp[m]]
        {
          if m == k {
            CloneSlotKept(fs, s, d, k, c, r);
          }
        }
      }
    }
  }

  /** A round leaves the source's blocks marked and unchanged. */
  lemma CopySlotKeepsSources(fs: FS, s: nat, d: nat, k: nat)
    requires Wf(fs) && s < MaxInodes && d < MaxInodes && k < MaxPointers
    requires forall m | 0 <= m < MaxPointers && fs.inodes[s].ptrs[m] != 0 :: Bit(fs.bitmap, fs.inodes[s].ptrs[m])
    ensures var c, sp := CopySlot(fs, s, d, k), fs.inodes[s].ptrs;
      forall m | 0 <= m < MaxPointers && sp[m] != 0 :: c.fs.blocks[sp[m]] == fs.blocks[sp[m]] && Bit(c.fs.bitmap, sp[m])
  {
    var c, sp := CopySlot(fs, s, d, k), fs.inodes[s].ptrs;
    if c.ok && sp[k] != 0 {
      var g := c.fs.inodes[d].ptrs[k];
      assert !Bit(fs.bitmap, g);
      forall m | 0 <= m < MaxPointers && sp[m] != 0
        ensures sp[m] != g
      {
        assert Bit(fs.bitmap, sp[m]);
      }
    }
  }

  /** The block copied into slot k keeps its bytes through the later rounds. */
  lemma CloneSlotKept(fs: FS, s: nat, d: nat, k: nat, c: Filled, r: Filled)
    requires Wf(fs) && s < MaxInodes && d < MaxInodes && k < MaxPointers && d != s
    requires fs.inodes[d].ptrs[k] == 0
    requires c == CopySlot(fs, s, d, k) && c.ok
    requires r == Clone(c.fs, s, d, k + 1)
    requires forall b | 0 <= b < MaxBlocks && Bit(c.fs.bitmap, b) :: r.fs.blocks[b] == c.fs.blocks[b]
    requires r.fs.inodes[d].ptrs[k] != 0
    ensures var q := r.fs.inodes[d].ptrs;
      fs.inodes[s].ptrs[k] != 0 && r.fs.blocks[q[k]] == fs.blocks[fs.inodes[s].ptrs[k]]
  {
    var q := r.fs.inodes[d].ptrs;
    assert q[k] == c.fs.inodes[d].ptrs[k];
    assert Bit(c.fs.bitmap, q[k]);
  }

  /** copiar_arquivo. Checks, in order: the source name resolves, read
      permission on it, a free inode. The copy takes the source's kind and
      mode, is owned by the caller and gets the source's size; each set
      block of the source is copied into a fresh block; then the copy is
      linked under `to`. When blocks run out only the copy's kind is reset,
      the blocks it already got stay marked; when linking fails the copy
      stays live and unlinked. */
  function Copy(fs: FS, who: Identity, from: seq<byte>, to: seq<byte>): (r: Reply<nat>)
    requires Wf(fs) && CString(to) && |to| < NameMax
    ensures Wf(r.fs) && r.fs.cwd == fs.cwd
    ensures var s := Lookup(fs, fs.cwd, from);
      if s == 0 then r == Reply(Fail(NotFound), fs)
      else if s >= MaxInodes then r == Reply(Fail(OutOfTable), fs)
      else if !Can(who, fs.inodes[s], PermR) then r == Reply(Fail(PermissionDenied), fs)
      else if AllocInode(fs) == 0 then r == Reply(Fail(NoFreeInode), fs)
      else
        r == CopyInto(fs, who, s, AllocInode(fs), to)
  {
    var s := Lookup(fs, fs.cwd, from);
    if s == 0 then Reply(Fail(NotFound), fs)
    else if s >= MaxInodes then Reply(Fail(OutOfTable), fs)
    else if !Can(who, fs.inodes[s], PermR) then Reply(Fail(PermissionDenied), fs)
    else
      var d := AllocInode(fs);
      if d == 0 then Reply(Fail(NoFreeInode), fs)
      else CopyInto(fs, who, s, d, to)
  }

  /** copiar_arquivo up to the end of its block loop: d is initialised from
      s and receives copies of s's blocks. */
  function Duplicate(fs: FS, who: Identity, s: nat, d: nat): (r: Filled)
    requires Wf(fs) && s < MaxInodes && 0 < d < MaxInodes
    ensures Wf(r.fs) && r.fs.cwd == fs.cwd
    ensures var src, n := fs.inodes[s], r.fs.inodes[d];
      && (forall j | 0 <= j < MaxInodes && j != d :: r.fs.inodes[j] == fs.inodes[j])
      && n.kind == src.kind && n.mode == src.mode && n.owner == who.user && n.id == d
      && (d != s ==> n.size == src.size)
      && (r.ok && d != s ==> forall m | 0 <= m < MaxPointers :: (n.ptrs[m] == 0 <==> src.ptrs[m] == 0))
  {
    var fs1 := InitializeInode(fs, d, fs.inodes[s].kind, fs.inodes[s].mode, who);
    var fs2 := SetInode(fs1, d, fs1.inodes[d].(size := fs1.inodes[s].size));
    assert d != s ==> fs2.inodes[s] == fs.inodes[s];
    Clone(fs2, s, d, 0)
  }

  /** The part of copiar_arquivo after source s and copy d were chosen. */
  function CopyInto(fs: FS, who: Identity, s: nat, d: nat, to: seq<byte>): (r: Reply<nat>)
    requires Wf(fs) && CString(to) && |to| < NameMax && s < MaxInodes && 0 < d < MaxInodes
    ensures Wf(r.fs) && r.fs.cwd == fs.cwd
    ensures var src, n := fs.inodes[s], r.fs.inodes[d];
      && (forall j | 0 <= j < MaxInodes && j != d && j != fs.cwd :: r.fs.inodes[j] == fs.inodes[j])
      && n.mode == src.mode && n.owner == who.user && n.id == d
      && (d != s && d != fs.cwd ==> n.size == src.size)
      && (r.result == Fail(NoFreeBlock) ==> n.kind == KindFree)
      && (r.result != Fail(NoFreeBlock) ==> n.kind == src.kind)
      && (r.result.Ok? ==> r.result.value == d)
      && (r.result.Ok? && d != s ==> forall m | 0 <= m < MaxPointers :: (n.ptrs[m] == 0 <==> src.ptrs[m] == 0))
  {
    var c := Duplicate(fs, who, s, d);
    if !c.ok then Reply(Fail(NoFreeBlock), SetInode(c.fs, d, c.fs.inodes[d].(kind := KindFree)))
    else
      Link(c.fs, who, d, to)
  }

  /** The last step of copiar_arquivo: the copy d is entered under `to` in
      the working directory, where the name then resolves to it. */
  function Link(fs: FS, who: Identity, d: nat, to: seq<byte>): (r: Reply<nat>)
    requires Wf(fs) && CString(to) && |to| < NameMax && 0 < d < MaxInodes
    ensures Wf(r.fs) && r.fs.cwd == fs.cwd && r.fs.bitmap == fs.bitmap
    ensures forall j | 0 <= j < MaxInodes && j != fs.cwd :: r.fs.inodes[j] == fs.inodes[j]
    ensures r.fs.inodes[fs.cwd] == fs.inodes[fs.cwd].(size := r.fs.inodes[fs.cwd].size)
    ensures r.result.Ok? || r.fs == fs
    ensures r.result == Ok(d) || r.result == Fail(NotADirectory) || r.result == Fail(AlreadyExists)
         || r.result == Fail(DirectoryFull) || r.result == Fail(PermissionDenied) || r.result == Fail(InvalidInode)
    ensures r.result.Ok? && fs.inodes[fs.cwd].ptrs[0] != 0 ==> Lookup(r.fs, fs.cwd, to) == d
  {
    var ins := Insert(fs, who, fs.cwd, to, d);
    if ins.result.Ok? then
      InsertedFound(fs, who, fs.cwd, to, d);
      Reply(Ok(d), ins.fs)
    else Reply(Fail(ins.result.err), ins.fs)
  }
}
