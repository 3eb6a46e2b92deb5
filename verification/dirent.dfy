/** A directory's data block read as 128 fixed slots of 32 bytes: a 28-byte
    NUL-terminated name field followed by a little-endian 32-bit inode id
    (definicoes/sistema_arq.h:68-79). An id of 0 marks an empty slot. */
module Dirent {
  import opened Layout

  datatype Entry = Entry(name: seq<byte>, ino: nat)

  const EmptyEntry := Entry([], 0)
  /** The names "." and "..". */
  const Dot: seq<byte> := [0x2E]
  const DotDot: seq<byte> := [0x2E, 0x2E]

  /** A C string: no NUL byte inside. */
  predicate CString(s: seq<byte>) {
    forall i | 0 <= i < |s| :: s[i] != 0
  }

  predicate Used(e: Entry) {
    e.ino != 0
  }

  /** The C string held in a field: the bytes before its first NUL, or the
      whole field when it holds none. */
  function CName(field: seq<byte>): (r: seq<byte>)
    ensures CString(r) && |r| <= |field| && r == field[..|r|]
    ensures |r| < |field| ==> field[|r|] == 0
  {
    if |field| == 0 || field[0] == 0 then [] else [field[0]] + CName(field[1..])
  }

  /** A C string followed by a NUL reads back as itself. */
  lemma {:induction false} CNameTerminated(s: seq<byte>, t: seq<byte>)
    requires CString(s) && |t| > 0 && t[0] == 0
    ensures CName(s + t) == s
  {
    if |s| > 0 {
      assert (s + t)[1..] == s[1..] + t;
      CNameTerminated(s[1..], t);
    } else {
      assert s + t == t;
    }
  }

  /** A uint32_t as stored on a little-endian host. */
  function Le32(b: seq<byte>): (x: nat)
    requires |b| == 4
    ensures x < U32Limit
  {
    b[0] as int + 0x100 * (b[1] as int) + 0x1_0000 * (b[2] as int) + 0x100_0000 * (b[3] as int)
  }

  function U32(x: nat): (b: seq<byte>)
    requires x < U32Limit
    ensures |b| == 4
  {
    [x % 0x100, x / 0x100 % 0x100, x / 0x1_0000 % 0x100, x / 0x100_0000]
  }

  lemma Le32OfU32(x: nat)
    requires x < U32Limit
    ensures Le32(U32(x)) == x
  {
    DivMod256(x);
  }

  lemma DivMod256(x: nat)
    ensures x == x % 0x100 + 0x100 * (x / 0x100 % 0x100) + 0x1_0000 * (x / 0x1_0000 % 0x100) + 0x100_0000 * (x / 0x100_0000)
  {
    var a := x / 0x100;
    var b := a / 0x100;
    var c := b / 0x100;
    assert x == x % 0x100 + 0x100 * a;
    assert a == a % 0x100 + 0x100 * b;
    assert b == b % 0x100 + 0x100 * c;
    assert b == x / 0x1_0000;
    assert c == x / 0x100_0000;
  }

  /** strncpy(field, name, 28): the name, NUL-padded to the field width, or
      its first 28 bytes (no terminator) when it does not fit. */
  function NameField(name: seq<byte>): (f: seq<byte>)
    ensures |f| == NameMax
  {
    if |name| < NameMax then name + Zeros(NameMax - |name|) else name[..NameMax]
  }

  lemma NameFieldReadsBack(name: seq<byte>)
    requires CString(name) && |name| < NameMax
    ensures CName(NameField(name)) == name
  {
    CNameTerminated(name, Zeros(NameMax - |name|));
  }

  function EncodeEntry(name: seq<byte>, ino: nat): (raw: seq<byte>)
    requires ino < U32Limit
    ensures |raw| == EntrySize
  {
    NameField(name) + U32(ino)
  }

  function DecodeEntry(raw: seq<byte>): Entry
    requires |raw| == EntrySize
  {
    Entry(CName(raw[..NameMax]), Le32(raw[NameMax..]))
  }

  lemma DecodeEncode(name: seq<byte>, ino: nat)
    requires CString(name) && |name| < NameMax && ino < U32Limit
    ensures DecodeEntry(EncodeEntry(name, ino)) == Entry(name, ino)
  {
    var raw := EncodeEntry(name, ino);
    assert raw[..NameMax] == NameField(name);
    assert raw[NameMax..] == U32(ino);
    NameFieldReadsBack(name);
    Le32OfU32(ino);
  }

  predicate IsBlock(blk: seq<byte>) {
    |blk| == BlockSize
  }

  function Slot(blk: seq<byte>, i: nat): (raw: seq<byte>)
    requires IsBlock(blk) && i < EntriesPerBlock
    ensures |raw| == EntrySize
  {
    blk[i * EntrySize .. i * EntrySize + EntrySize]
  }

  /** The block's 128 entries, as buscar_entrada and its peers see them. */
  function Table(blk: seq<byte>): (t: seq<Entry>)
    requires IsBlock(blk)
    ensures |t| == EntriesPerBlock
    ensures forall i | 0 <= i < EntriesPerBlock :: t[i] == DecodeEntry(Slot(blk, i))
  {
    seq(EntriesPerBlock, i requires 0 <= i < EntriesPerBlock => DecodeEntry(Slot(blk, i)))
  }

  /** memcpy of `data` into `blk` at offset `off`. */
  function Overwrite(blk: seq<byte>, off: nat, data: seq<byte>): (r: seq<byte>)
    requires off + |data| <= |blk|
    ensures |r| == |blk|
    ensures forall k | 0 <= k < |blk| :: r[k] == if off <= k < off + |data| then data[k - off] else blk[k]
  {
    blk[..off] + data + blk[off + |data|..]
  }

  /** A write that misses slot j leaves its bytes alone. */
  lemma SlotUnchanged(blk: seq<byte>, off: nat, data: seq<byte>, j: nat)
    requires IsBlock(blk) && off + |data| <= BlockSize && j < EntriesPerBlock
    requires j * EntrySize + EntrySize <= off || off + |data| <= j * EntrySize
    ensures IsBlock(Overwrite(blk, off, data))
    ensures Slot(Overwrite(blk, off, data), j) == Slot(blk, j)
  {
    var r := Overwrite(blk, off, data);
    forall k | 0 <= k < EntrySize
      ensures Slot(r, j)[k] == Slot(blk, j)[k]
    {
      assert Slot(r, j)[k] == r[j * EntrySize + k];
      assert Slot(blk, j)[k] == blk[j * EntrySize + k];
    }
  }

  lemma SlotRewritten(blk: seq<byte>, i: nat, data: seq<byte>)
    requires IsBlock(blk) && i < EntriesPerBlock && |data| <= EntrySize
    ensures IsBlock(Overwrite(blk, i * EntrySize, data))
    ensures Slot(Overwrite(blk, i * EntrySize, data), i) == data + Slot(blk, i)[|data|..]
  {
    var r := Overwrite(blk, i * EntrySize, data);
    var want := data + Slot(blk, i)[|data|..];
    forall k | 0 <= k < EntrySize
      ensures Slot(r, i)[k] == want[k]
    {
      assert Slot(r, i)[k] == r[i * EntrySize + k];
    }
  }

  /** Writing at most one slot's worth of bytes at the start of slot i
      changes entry i only. */
  lemma TableAfterSlotWrite(blk: seq<byte>, i: nat, data: seq<byte>)
    requires IsBlock(blk) && i < EntriesPerBlock && |data| <= EntrySize
    ensures IsBlock(Overwrite(blk, i * EntrySize, data))
    ensures Table(Overwrite(blk, i * EntrySize, data))
         == Table(blk)[i := DecodeEntry(data + Slot(blk, i)[|data|..])]
  {
    var r := Overwrite(blk, i * EntrySize, data);
    var t, u := Table(r), Table(blk)[i := DecodeEntry(data + Slot(blk, i)[|data|..])];
    forall j | 0 <= j < EntriesPerBlock
      ensures t[j] == u[j]
    {
      if j == i {
        SlotRewritten(blk, i, data);
      } else {
        SlotUnchanged(blk, i * EntrySize, data, j);
      }
    }
  }

  /** adicionar_entrada_diretorio's two stores into slot i. */
  function PutEntry(blk: seq<byte>, i: nat, name: seq<byte>, ino: nat): (r: seq<byte>)
    requires IsBlock(blk) && i < EntriesPerBlock && ino < U32Limit
    ensures IsBlock(r)
  {
    Overwrite(blk, i * EntrySize, EncodeEntry(name, ino))
  }

  lemma TableAfterPut(blk: seq<byte>, i: nat, name: seq<byte>, ino: nat)
    requires IsBlock(blk) && i < EntriesPerBlock && ino < U32Limit
    requires CString(name) && |name| < NameMax
    ensures Table(PutEntry(blk, i, name, ino)) == Table(blk)[i := Entry(name, ino)]
  {
    var raw := EncodeEntry(name, ino);
    TableAfterSlotWrite(blk, i, raw);
    assert raw + Slot(blk, i)[|raw|..] == raw;
    DecodeEncode(name, ino);
  }

  /** remover_entrada_diretorio's memset of slot i. */
  function ClearSlot(blk: seq<byte>, i: nat): (r: seq<byte>)
    requires IsBlock(blk) && i < EntriesPerBlock
    ensures IsBlock(r)
  {
    Overwrite(blk, i * EntrySize, Zeros(EntrySize))
  }

  lemma TableAfterClear(blk: seq<byte>, i: nat)
    requires IsBlock(blk) && i < EntriesPerBlock
    ensures Table(ClearSlot(blk, i)) == Table(blk)[i := EmptyEntry]
  {
    var raw := Zeros(EntrySize);
    TableAfterSlotWrite(blk, i, raw);
    assert raw + Slot(blk, i)[|raw|..] == raw;
    assert raw[..NameMax] == [0] + raw[1..NameMax];
    assert raw[NameMax..] == [0, 0, 0, 0];
  }

  /** The name renomear_mover leaves behind: the new name cut to 27 bytes. */
  function StoredName(name: seq<byte>): (r: seq<byte>)
    ensures |r| < NameMax
  {
    if |name| < NameMax then name else name[..NameMax - 1]
  }

  /** renomear_mover's strncpy into the name field of slot i followed by the
      forced NUL in the field's last byte; the id bytes stay as they are. */
  function RenameSlot(blk: seq<byte>, i: nat, name: seq<byte>): (r: seq<byte>)
    requires IsBlock(blk) && i < EntriesPerBlock
    ensures IsBlock(r)
  {
    Overwrite(blk, i * EntrySize, NameField(name)[NameMax - 1 := 0])
  }

  lemma TableAfterRename(blk: seq<byte>, i: nat, name: seq<byte>)
    requires IsBlock(blk) && i < EntriesPerBlock && CString(name)
    ensures Table(RenameSlot(blk, i, name)) == Table(blk)[i := Entry(StoredName(name), Table(blk)[i].ino)]
  {
    var field := NameField(name)[NameMax - 1 := 0];
    TableAfterSlotWrite(blk, i, field);
    var raw := field + Slot(blk, i)[NameMax..];
    assert raw[..NameMax] == field;
    assert raw[NameMax..] == Slot(blk, i)[NameMax..];
    if |name| < NameMax {
      assert field == NameField(name);
      NameFieldReadsBack(name);
    } else {
      assert field == name[..NameMax - 1] + [0];
      CNameTerminated(name[..NameMax - 1], [0]);
    }
  }

  /** The initial contents of a new directory block: zeroes, with "." -> self
      in slot 0 and ".." -> parent in slot 1. */
  function DirBlock(self: nat, parent: nat): (blk: seq<byte>)
    requires self < U32Limit && parent < U32Limit
    ensures IsBlock(blk)
  {
    PutEntry(PutEntry(Zeros(BlockSize), 0, Dot, self), 1, DotDot, parent)
  }

  lemma TableOfZeros()
    ensures forall i | 0 <= i < EntriesPerBlock :: Table(Zeros(BlockSize))[i] == EmptyEntry
  {
    forall i | 0 <= i < EntriesPerBlock
      ensures Table(Zeros(BlockSize))[i] == EmptyEntry
    {
      var raw := Slot(Zeros(BlockSize), i);
      assert raw[..NameMax][0] == 0;
      assert raw[NameMax..] == [0, 0, 0, 0];
    }
  }

  lemma TableOfDirBlock(self: nat, parent: nat)
    requires self < U32Limit && parent < U32Limit
    ensures Table(DirBlock(self, parent))[0] == Entry(Dot, self)
    ensures Table(DirBlock(self, parent))[1] == Entry(DotDot, parent)
    ensures forall i | 2 <= i < EntriesPerBlock :: Table(DirBlock(self, parent))[i] == EmptyEntry
  {
    TableOfZeros();
    TableAfterPut(Zeros(BlockSize), 0, Dot, self);
    TableAfterPut(PutEntry(Zeros(BlockSize), 0, Dot, self), 1, DotDot, parent);
  }

  // ---- Scans over a table ----

  /** The first used entry at or after `from` whose name is `name`, or
      |t| when there is none. */
  function FindName(t: seq<Entry>, name: seq<byte>, from: nat): (i: nat)
    requires from <= |t|
    ensures from <= i <= |t|
    ensures i < |t| ==> Used(t[i]) && t[i].name == name
    ensures forall j | from <= j < i :: !(Used(t[j]) && t[j].name == name)
    decreases |t| - from
  {
    if from == |t| then |t|
    else if Used(t[from]) && t[from].name == name then from
    else FindName(t, name, from + 1)
  }

  /** The first empty entry at or after `from`, or |t| when there is none. */
  function FirstEmpty(t: seq<Entry>, from: nat): (i: nat)
    requires from <= |t|
    ensures from <= i <= |t|
    ensures i < |t| ==> !Used(t[i])
    ensures forall j | from <= j < i :: Used(t[j])
    decreases |t| - from
  {
    if from == |t| then |t|
    else if !Used(t[from]) then from
    else FirstEmpty(t, from + 1)
  }

  /** Number of used entries. */
  function Count(t: seq<Entry>): (n: nat)
    ensures n <= |t|
  {
    if |t| == 0 then 0 else (if Used(t[0]) then 1 else 0) + Count(t[1..])
  }

  lemma {:induction false} CountUpdate(t: seq<Entry>, i: nat, e: Entry)
    requires i < |t|
    ensures Count(t[i := e]) + (if Used(t[i]) then 1 else 0) == Count(t) + (if Used(e) then 1 else 0)
  {
    if i > 0 {
      assert t[i := e][1..] == t[1..][i - 1 := e];
      CountUpdate(t[1..], i - 1, e);
    } else {
      assert t[i := e][1..] == t[1..];
    }
  }

  lemma {:induction false} CountPositive(t: seq<Entry>, i: nat)
    requires i < |t| && Used(t[i])
    ensures Count(t) >= 1
  {
    if i > 0 {
      CountPositive(t[1..], i - 1);
    }
  }

  /** Used entries carry pairwise different names. */
  predicate DistinctNames(t: seq<Entry>) {
    forall i, j | 0 <= i < j < |t| :: Used(t[i]) && Used(t[j]) ==> t[i].name != t[j].name
  }
}
