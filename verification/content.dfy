/** File content over the four direct block pointers: escrever_arquivo and
    ler_arquivo (codigo_base/operacoes_arq.c:128-226). */
module Content {
  import opened Layout
  import opened Bitmap
  import opened Permissions
  import opened Dirent
  import opened State
  import opened Directory

  function Min(a: nat, b: nat): nat { if a < b then a else b }

  /** The bytes of content that go to slot k: one block's worth, the last
      one partial. */
  function Chunk(content: seq<byte>, k: nat): (c: seq<byte>)
    requires k * BlockSize <= |content|
    ensures |c| == Min(BlockSize, |content| - k * BlockSize)
  {
    content[k * BlockSize .. Min(|content|, (k + 1) * BlockSize)]
  }

  /** ceil(len / 4096), the number of slots a write needs. */
  function BlocksNeeded(len: nat): (n: nat)
    ensures n * BlockSize >= len && (n == 0 || (n - 1) * BlockSize < len)
  {
    (len + BlockSize - 1) / BlockSize
  }

  function SetPtr(fs: FS, id: nat, k: nat, b: nat): (r: FS)
    requires Wf(fs) && id < MaxInodes && k < MaxPointers && b < MaxBlocks
    ensures Wf(r)
    ensures r.bitmap == fs.bitmap && r.blocks == fs.blocks && r.cwd == fs.cwd
    ensures r.inodes == fs.inodes[id := fs.inodes[id].(ptrs := fs.inodes[id].ptrs[k := b])]
  {
    SetInode(fs, id, fs.inodes[id].(ptrs := fs.inodes[id].ptrs[k := b]))
  }

  /** Inode id's other fields are as in `before`; only pointers differ. */
  predicate SameButPtrs(before: FS, after: FS, id: nat)
    requires Wf(before) && Wf(after) && id < MaxInodes
  {
    && after.cwd == before.cwd
    && (forall j | 0 <= j < MaxInodes && j != id :: after.inodes[j] == before.inodes[j])
    && after.inodes[id] == before.inodes[id].(ptrs := after.inodes[id].ptrs)
  }

  /** The pointers of inode id that are set are marked in the bitmap and
      pairwise different. */
  predicate OwnPtrsSound(fs: FS, id: nat)
    requires Wf(fs) && id < MaxInodes
  {
    var p := fs.inodes[id].ptrs;
    && (forall k | 0 <= k < MaxPointers && p[k] != 0 :: Bit(fs.bitmap, p[k]))
    && (forall k1, k2 | 0 <= k1 < k2 < MaxPointers :: p[k1] != 0 ==> p[k1] != p[k2])
  }

  /** Block b (not 0) is held by one of slots lo..hi-1 of pointer list p. */
  predicate HeldBy(p: seq<nat>, lo: nat, hi: nat, b: nat)
    requires lo <= hi <= |p|
  {
    b != 0 && exists k | lo <= k < hi :: p[k] == b
  }

  /** Block b (not 0) was put into one of slots lo..hi-1, empty in p, giving q. */
  predicate GrantedTo(p: seq<nat>, q: seq<nat>, lo: nat, hi: nat, b: nat)
    requires lo <= hi <= |p| && hi <= |q|
  {
    b != 0 && exists k | lo <= k < hi :: p[k] == 0 && q[k] == b
  }

  lemma HeldByStep(p: seq<nat>, lo: nat, hi: nat, b: nat)
    requires lo < hi <= |p|
    ensures HeldBy(p, lo, hi, b) == (b != 0 && (p[lo] == b || HeldBy(p, lo + 1, hi, b)))
  {
    if HeldBy(p, lo, hi, b) && p[lo] != b {
      var k :| lo <= k < hi && p[k] == b;
      assert lo + 1 <= k;
    }
  }

  lemma GrantedToStep(p: seq<nat>, q: seq<nat>, lo: nat, hi: nat, b: nat)
    requires lo < hi <= |p| && hi <= |q|
    ensures GrantedTo(p, q, lo, hi, b) == (b != 0 && ((p[lo] == 0 && q[lo] == b) || GrantedTo(p, q, lo + 1, hi, b)))
  {
    if GrantedTo(p, q, lo, hi, b) && !(p[lo] == 0 && q[lo] == b) {
      var k :| lo <= k < hi && p[k] == 0 && q[k] == b;
      assert lo + 1 <= k;
    }
  }

  lemma GrantedToSame(p: seq<nat>, p2: seq<nat>, q: seq<nat>, lo: nat, hi: nat, b: nat)
    requires lo <= hi <= |p| && hi <= |p2| && hi <= |q|
    requires forall k | lo <= k < hi :: p[k] == p2[k]
    ensures GrantedTo(p, q, lo, hi, b) == GrantedTo(p2, q, lo, hi, b)
  {
  }

  lemma HeldBySame(p: seq<nat>, p2: seq<nat>, lo: nat, hi: nat, b: nat)
    requires lo <= hi <= |p| && hi <= |p2|
    requires forall k | lo <= k < hi :: p[k] == p2[k]
    ensures HeldBy(p, lo, hi, b) == HeldBy(p2, lo, hi, b)
  {
  }

  /** The release loop of escrever_arquivo: slots from..3 are released
      and zeroed. */
  function Truncate(fs: FS, id: nat, from: nat): (r: FS)
    requires Wf(fs) && id < MaxInodes && from <= MaxPointers
    ensures Wf(r) && SameButPtrs(fs, r, id)
    ensures r.blocks == fs.blocks
    ensures var p, q := fs.inodes[id].ptrs, r.inodes[id].ptrs;
      && (forall k | 0 <= k < from :: q[k] == p[k])
      && (forall k | from <= k < MaxPointers :: q[k] == 0)
      && (forall b | 0 <= b < MaxBlocks :: Bit(r.bitmap, b) == (Bit(fs.bitmap, b) && !HeldBy(p, from, MaxPointers, b)))
    decreases MaxPointers - from
  {
    if from == MaxPointers then fs
    else
      var p := fs.inodes[id].ptrs[from];
      var fs1 := if p == 0 then fs else SetPtr(fs.(bitmap := Release(fs.bitmap, p)), id, from, 0);
      var r := Truncate(fs1, id, from + 1);
      assert forall b | 0 <= b < MaxBlocks :: Bit(r.bitmap, b) == (Bit(fs.bitmap, b) && !HeldBy(fs.inodes[id].ptrs, from, MaxPointers, b)) by {
        forall b | 0 <= b < MaxBlocks
          ensures Bit(r.bitmap, b) == (Bit(fs.bitmap, b) && !HeldBy(fs.inodes[id].ptrs, from, MaxPointers, b))
        {
          HeldByStep(fs.inodes[id].ptrs, from, MaxPointers, b);
          HeldBySame(fs1.inodes[id].ptrs, fs.inodes[id].ptrs, from + 1, MaxPointers, b);
        }
      }
      r
  }

  /** The result of the allocate-and-copy loop: whether every slot got a
      block, and the state. */
  datatype Filled = Filled(ok: bool, fs: FS)

  /** One round of the allocate-or-reuse loop: slot i keeps its block or
      gets the first free one, then chunk i is copied to the block's start.
      Not ok when the slot is empty and no block is free. */
  function Place(fs: FS, id: nat, content: seq<byte>, i: nat): (r: Filled)
    requires Wf(fs) && id < MaxInodes && i < MaxPointers && i * BlockSize <= |content|
    ensures Wf(r.fs) && SameButPtrs(fs, r.fs, id)
    ensures var p, q := fs.inodes[id].ptrs, r.fs.inodes[id].ptrs;
      && (p[i] != 0 ==> r.ok && q[i] == p[i] && r.fs.bitmap == fs.bitmap)
      && (r.ok ==>
            q == p[i := q[i]] && q[i] != 0
            && r.fs.blocks == fs.blocks[q[i] := Overwrite(fs.blocks[q[i]], 0, Chunk(content, i))])
      && (!r.ok ==> r.fs == fs && forall b | 2 <= b < MaxBlocks :: Bit(fs.bitmap, b))
      && (p[i] == 0 ==> r.ok == (Allocate(fs.bitmap).id != 0))
      && (p[i] == 0 && r.ok ==>
            q[i] == Allocate(fs.bitmap).id && !Bit(fs.bitmap, q[i])
            && forall b | 0 <= b < MaxBlocks :: Bit(r.fs.bitmap, b) == (b == q[i] || Bit(fs.bitmap, b)))
  {
    var p := fs.inodes[id].ptrs[i];
    var g := if p == 0 then Allocate(fs.bitmap) else Grant(p, fs.bitmap);
    if g.id == 0 then Filled(false, fs)
    else
      var fs1 := SetPtr(fs.(bitmap := g.bitmap), id, i, g.id);
      Filled(true, SetBlock(fs1, g.id, Overwrite(fs1.blocks[g.id], 0, Chunk(content, i))))
  }

  /** The allocate-or-reuse loop of escrever_arquivo over slots i up to
      `needed`; when no block is left the loop stops, and what it did so far
      stays. */
  function Fill(fs: FS, id: nat, content: seq<byte>, i: nat, needed: nat): (r: Filled)
    requires Wf(fs) && id < MaxInodes && i <= needed <= MaxPointers && |content| <= needed * BlockSize
    requires needed == 0 || (needed - 1) * BlockSize < |content|
    ensures Wf(r.fs) && SameButPtrs(fs, r.fs, id)
    ensures var p, q := fs.inodes[id].ptrs, r.fs.inodes[id].ptrs;
      && (forall k | 0 <= k < i || needed <= k < MaxPointers :: q[k] == p[k])
      && (forall k | i <= k < needed :: p[k] != 0 ==> q[k] == p[k])
      && (r.ok ==> forall k | i <= k < needed :: q[k] != 0)
      && (!r.ok ==> forall b | 2 <= b < MaxBlocks :: Bit(r.fs.bitmap, b))
    decreases needed - i
  {
    if i == needed then Filled(true, fs)
    else
      var s := Place(fs, id, content, i);
      if !s.ok then s else Fill(s.fs, id, content, i + 1, needed)
  }

  /** The loop marks exactly the blocks it puts into empty slots, and those
      were free. */
  lemma {:induction false} FillBitmap(fs: FS, id: nat, content: seq<byte>, i: nat, needed: nat)
    requires Wf(fs) && id < MaxInodes && i <= needed <= MaxPointers && |content| <= needed * BlockSize
    requires needed == 0 || (needed - 1) * BlockSize < |content|
    ensures var r := Fill(fs, id, content, i, needed);
      var p, q := fs.inodes[id].ptrs, r.fs.inodes[id].ptrs;
      && (forall b | 0 <= b < MaxBlocks :: Bit(r.fs.bitmap, b) == (Bit(fs.bitmap, b) || GrantedTo(p, q, i, needed, b)))
      && (forall k | i <= k < needed :: p[k] == 0 && q[k] != 0 ==> !Bit(fs.bitmap, q[k]))
    decreases needed - i
  {
    if i < needed {
      var s := Place(fs, id, content, i);
      if s.ok {
        FillBitmap(s.fs, id, content, i + 1, needed);
        var r := Fill(s.fs, id, content, i + 1, needed);
        var p, p1, q := fs.inodes[id].ptrs, s.fs.inodes[id].ptrs, r.fs.inodes[id].ptrs;
        forall b | 0 <= b < MaxBlocks
          ensures Bit(r.fs.bitmap, b) == (Bit(fs.bitmap, b) || GrantedTo(p, q, i, needed, b))
        {
          GrantedToStep(p, q, i, needed, b);
          GrantedToSame(p1, p, q, i + 1, needed, b);
        }
        forall k | i + 1 <= k < needed && p[k] == 0 && q[k] != 0
          ensures !Bit(fs.bitmap, q[k])
        {
          assert !Bit(s.fs.bitmap, q[k]);
        }
      } else {
        forall b | 0 <= b < MaxBlocks
          ensures !GrantedTo(fs.inodes[id].ptrs, fs.inodes[id].ptrs, i, needed, b)
        {
        }
      }
    }
  }
  /** A block no slot i..needed-1 ends up pointing to keeps its bytes. */
  lemma {:induction false} FillUntouched(fs: FS, id: nat, content: seq<byte>, i: nat, needed: nat)
    requires Wf(fs) && id < MaxInodes && i <= needed <= MaxPointers && |content| <= needed * BlockSize
    requires needed == 0 || (needed - 1) * BlockSize < |content|
    ensures var r := Fill(fs, id, content, i, needed);
      forall b | 0 <= b < MaxBlocks && (forall k | i <= k < needed :: r.fs.inodes[id].ptrs[k] != b) ::
        r.fs.blocks[b] == fs.blocks[b]
    decreases needed - i
  {
    if i < needed {
      var s := Place(fs, id, content, i);
      if s.ok {
        FillUntouched(s.fs, id, content, i + 1, needed);
        var r := Fill(s.fs, id, content, i + 1, needed);
        assert r.fs.inodes[id].ptrs[i] == s.fs.inodes[id].ptrs[i];
      }
    }
  }

  lemma PlaceSound(fs: FS, id: nat, content: seq<byte>, i: nat)
    requires Wf(fs) && id < MaxInodes && i < MaxPointers && i * BlockSize <= |content|
    requires OwnPtrsSound(fs, id)
    ensures OwnPtrsSound(Place(fs, id, content, i).fs, id)
  {
    var s := Place(fs, id, content, i);
    var p := fs.inodes[id].ptrs;
    if s.ok && p[i] == 0 {
      forall k | 0 <= k < MaxPointers && p[k] != 0
        ensures p[k] != s.fs.inodes[id].ptrs[i]
      {
        assert Bit(fs.bitmap, p[k]);
      }
    }
  }

  /** The loop keeps the file's set pointers marked and pairwise different. */
  lemma {:induction false} FillSound(fs: FS, id: nat, content: seq<byte>, i: nat, needed: nat)
    requires Wf(fs) && id < MaxInodes && i <= needed <= MaxPointers && |content| <= needed * BlockSize
    requires needed == 0 || (needed - 1) * BlockSize < |content|
    requires OwnPtrsSound(fs, id)
    ensures OwnPtrsSound(Fill(fs, id, content, i, needed).fs, id)
    decreases needed - i
  {
    if i < needed {
      PlaceSound(fs, id, content, i);
      var s := Place(fs, id, content, i);
      if s.ok {
        FillSound(s.fs, id, content, i + 1, needed);
      }
    }
  }

  /** When every slot got a block, slot k's block starts with chunk k. */
  lemma {:induction false} FillContent(fs: FS, id: nat, content: seq<byte>, i: nat, needed: nat)
    requires Wf(fs) && id < MaxInodes && i <= needed <= MaxPointers && |content| <= needed * BlockSize
    requires needed == 0 || (needed - 1) * BlockSize < |content|
    requires OwnPtrsSound(fs, id)
    ensures var r := Fill(fs, id, content, i, needed);
      r.ok ==> forall k | i <= k < needed ::
        r.fs.blocks[r.fs.inodes[id].ptrs[k]][..|Chunk(content, k)|] == Chunk(content, k)
    decreases needed - i
  {
    if i < needed {
      PlaceSound(fs, id, content, i);
      var s := Place(fs, id, content, i);
      if s.ok {
        FillContent(s.fs, id, content, i + 1, needed);
        FillUntouched(s.fs, id, content, i + 1, needed);
        FillSound(s.fs, id, content, i + 1, needed);
        var r := Fill(s.fs, id, content, i + 1, needed);
        if r.ok {
          var q := r.fs.inodes[id].ptrs;
          var b := q[i];
          assert b == s.fs.inodes[id].ptrs[i] != 0;
          assert forall k | i + 1 <= k < needed :: q[k] != b by {
            assert OwnPtrsSound(r.fs, id);
          }
          assert r.fs.blocks[b] == s.fs.blocks[b];
          assert s.fs.blocks[b] == Overwrite(fs.blocks[b], 0, Chunk(content, i));
          assert r.fs.blocks[b][..|Chunk(content, i)|] == Chunk(content, i);
        }
      }
    }
  }

  /** escrever_arquivo. Checks, in order: the name resolves, write
      permission on the file, at most four blocks needed. Then slots from
      ceil(len/4096) up are released and zeroed, and each lower slot keeps
      its block or gets a new one before its chunk is copied in; the size is
      set last. The kind is not checked. */
  function Write(fs: FS, who: Identity, name: seq<byte>, content: seq<byte>): (r: Reply<()>)
    requires Wf(fs)
    ensures Wf(r.fs)
    ensures var id := Lookup(fs, fs.cwd, name);
      if id == 0 then r == Reply(Fail(NotFound), fs)
      else if id >= MaxInodes then r == Reply(Fail(OutOfTable), fs)
      else if !Can(who, fs.inodes[id], PermW) then r == Reply(Fail(PermissionDenied), fs)
      else if BlocksNeeded(|content|) > MaxPointers then r == Reply(Fail(TooLarge), fs)
      else r == WriteInode(fs, id, content)
  {
    var id := Lookup(fs, fs.cwd, name);
    if id == 0 then Reply(Fail(NotFound), fs)
    else if id >= MaxInodes then Reply(Fail(OutOfTable), fs)
    else if !Can(who, fs.inodes[id], PermW) then Reply(Fail(PermissionDenied), fs)
    else
      var needed := BlocksNeeded(|content|);
      if needed > MaxPointers then Reply(Fail(TooLarge), fs)
      else WriteInode(fs, id, content)
  }

  /** escrever_arquivo once inode id is resolved and allowed. */
  function WriteInode(fs: FS, id: nat, content: seq<byte>): (r: Reply<()>)
    requires Wf(fs) && id < MaxInodes && BlocksNeeded(|content|) <= MaxPointers
    ensures Wf(r.fs)
    ensures r.result == Ok(()) || r.result == Fail(NoFreeBlock)
    ensures r.fs.cwd == fs.cwd
    ensures forall j | 0 <= j < MaxInodes && j != id :: r.fs.inodes[j] == fs.inodes[j]
    ensures var n, m := fs.inodes[id], r.fs.inodes[id];
      && m.kind == n.kind && m.mode == n.mode && m.owner == n.owner && m.id == n.id
      && m.size == if r.result.Ok? then |content| else n.size
    ensures var needed, p, q := BlocksNeeded(|content|), fs.inodes[id].ptrs, r.fs.inodes[id].ptrs;
      && (forall k | needed <= k < MaxPointers :: q[k] == 0)
      && (forall k | 0 <= k < needed :: p[k] != 0 ==> q[k] == p[k])
      && (r.result.Ok? ==> forall k | 0 <= k < needed :: q[k] != 0)
  {
    var needed := BlocksNeeded(|content|);
    var fs1 := Truncate(fs, id, needed);
    var f := Fill(fs1, id, content, 0, needed);
    if !f.ok then Reply(Fail(NoFreeBlock), f.fs)
    else Reply(Ok(()), SetInode(f.fs, id, f.fs.inodes[id].(size := |content|)))
  }

  /** What cat prints: the bytes, and whether it stopped at a missing block
      pointer while bytes were still owed (the lost-data warning). */
  datatype Contents = Contents(data: seq<byte>, cut: bool)

  /** The loop of ler_arquivo from slot k with `rest` bytes still owed.
      Byte j of the output comes from byte j % 4096 of slot k + j / 4096; the
      output is cut short exactly when some slot is empty while bytes are
      still owed for it. */
  function Emit(fs: FS, p: seq<nat>, k: nat, rest: nat): (c: Contents)
    requires Wf(fs) && |p| == MaxPointers && k <= MaxPointers
    requires forall m | 0 <= m < MaxPointers :: p[m] < MaxBlocks
    ensures forall j | 0 <= j < |c.data| ::
      k + j / BlockSize < MaxPointers && p[k + j / BlockSize] != 0 && c.data[j] == fs.blocks[p[k + j / BlockSize]][j % BlockSize]
    ensures c.cut <==> exists m | k <= m < MaxPointers :: p[m] == 0 && rest > (m - k) * BlockSize
    ensures !c.cut ==> |c.data| == Min(rest, (MaxPointers - k) * BlockSize)
    ensures c.cut ==> |c.data| % BlockSize == 0 && |c.data| < rest
    decreases MaxPointers - k
  {
    if k == MaxPointers then Contents([], false)
    else if p[k] != 0 && rest > 0 then
      var n := Min(BlockSize, rest);
      var tail := Emit(fs, p, k + 1, rest - n);
      var c := Contents(fs.blocks[p[k]][..n] + tail.data, tail.cut);
      EmitStep(fs, p, k, rest, tail, c);
      c
    else if p[k] == 0 && rest > 0 then Contents([], true)
    else Emit(fs, p, k + 1, rest)
  }

  lemma EmitStep(fs: FS, p: seq<nat>, k: nat, rest: nat, tail: Contents, c: Contents)
    requires Wf(fs) && |p| == MaxPointers && k < MaxPointers
    requires forall m | 0 <= m < MaxPointers :: p[m] < MaxBlocks
    requires p[k] != 0 && rest > 0
    requires var n := Min(BlockSize, rest);
      && (forall j | 0 <= j < |tail.data| :: k + 1 + j / BlockSize < MaxPointers && p[k + 1 + j / BlockSize] != 0
            && tail.data[j] == fs.blocks[p[k + 1 + j / BlockSize]][j % BlockSize])
      && (tail.cut <==> exists m | k + 1 <= m < MaxPointers :: p[m] == 0 && rest - n > (m - (k + 1)) * BlockSize)
      && (!tail.cut ==> |tail.data| == Min(rest - n, (MaxPointers - (k + 1)) * BlockSize))
      && (tail.cut ==> |tail.data| % BlockSize == 0 && |tail.data| < rest - n)
      && c == Contents(fs.blocks[p[k]][..n] + tail.data, tail.cut)
    ensures forall j | 0 <= j < |c.data| ::
      k + j / BlockSize < MaxPointers && p[k + j / BlockSize] != 0 && c.data[j] == fs.blocks[p[k + j / BlockSize]][j % BlockSize]
    ensures c.cut <==> exists m | k <= m < MaxPointers :: p[m] == 0 && rest > (m - k) * BlockSize
    ensures !c.cut ==> |c.data| == Min(rest, (MaxPointers - k) * BlockSize)
    ensures c.cut ==> |c.data| % BlockSize == 0 && |c.data| < rest
  {
    var n := Min(BlockSize, rest);
    if |tail.data| > 0 || tail.cut {
      assert n == BlockSize;
    }
    forall j | 0 <= j < |c.data|
      ensures k + j / BlockSize < MaxPointers && p[k + j / BlockSize] != 0
        && c.data[j] == fs.blocks[p[k + j / BlockSize]][j % BlockSize]
    {
      if j >= n {
        var j' := j - BlockSize;
        assert j / BlockSize == 1 + j' / BlockSize && j % BlockSize == j' % BlockSize;
        assert c.data[j] == tail.data[j'];
      }
    }
    if c.cut {
      var m :| k + 1 <= m < MaxPointers && p[m] == 0 && rest - n > (m - (k + 1)) * BlockSize;
      assert rest > (m - k) * BlockSize;
    }
    if exists m | k <= m < MaxPointers :: p[m] == 0 && rest > (m - k) * BlockSize {
      var m :| k <= m < MaxPointers && p[m] == 0 && rest > (m - k) * BlockSize;
      assert m != k;
      assert rest - n > (m - (k + 1)) * BlockSize;
    }
  }

  /** ler_arquivo. Checks, in order: the name resolves, read permission,
      the inode is a regular file; then the blocks are emitted up to the
      recorded size. */
  function Read(fs: FS, who: Identity, name: seq<byte>): (r: Result<Contents>)
    requires Wf(fs)
    ensures var id := Lookup(fs, fs.cwd, name);
      if id == 0 then r == Fail(NotFound)
      else if id >= MaxInodes then r == Fail(OutOfTable)
      else if !Can(who, fs.inodes[id], PermR) then r == Fail(PermissionDenied)
      else if fs.inodes[id].kind != KindFile then r == Fail(NotAFile)
      else r.Ok? && |r.value.data| <= fs.inodes[id].size
  {
    var id := Lookup(fs, fs.cwd, name);
    if id == 0 then Fail(NotFound)
    else if id >= MaxInodes then Fail(OutOfTable)
    else if !Can(who, fs.inodes[id], PermR) then Fail(PermissionDenied)
    else if fs.inodes[id].kind != KindFile then Fail(NotAFile)
    else Ok(Emit(fs, fs.inodes[id].ptrs, 0, fs.inodes[id].size))
  }
}
