# Sistema_de_ArquivosFS storage core in Dafny

A functional model of the in-memory storage core of Sistema_de_ArquivosFS, a
small Unix-style file-system simulator written in C. The simulator keeps four
pieces of resident state: a 1024-bit free-block bitmap, a table of 100 inodes,
1024 data blocks of 4096 bytes, and the current directory. The model keeps
them as one immutable value `State.FS`. Every command of the core is a pure
function that takes an `FS` and returns a `Reply`: a result (`Ok` or
`Fail(err)`, where the C returns 0 or -1) and the new `FS`.

The model has these parts:

- **Block allocator** (`Bitmap`). First fit from block 2 with the bit set
  (`alocar_bloco`), and release (`liberar_bloco`). The bitmap is 128 bytes,
  and bit `i % 8` of byte `i / 8` stands for block `i`, as in the C.
- **Inode table** (`State`). Records are reset on initialisation
  (`inicializar_inode`). `alocar_inode` picks the first free slot from 1 and
  does not reserve it. The module also holds chmod (`modificar_permissoes`).
- **Permissions** (`Permissions`). The access check tries the owner, group
  and other triplets in turn, and any of them can grant, so the other triplet
  is always consulted. The module also has the chmod mask and the 9-character
  symbolic rendering.
- **Directory engine** (`Dirent`, `Directory`). A directory's slot-0 block is
  kept as raw bytes. It is decoded as 128 slots, each a 28-byte NUL-padded
  name and a little-endian 32-bit inode id. The operations are lookup,
  insert, remove, root initialisation, mkdir and cd.
- **File content** (`Content`, `Files`). Write truncates, reuses or
  allocates. Read returns the bytes and a lost-data flag. Create, delete,
  same-directory rename and deep copy are here too.
- **Format** (`Format`). The in-memory part of `formatar_disco`, plus the
  shell's return to the root that follows it.

The invariants (`State.Inv`) are:

- (a) blocks 0 and 1 are marked;
- (b) a block from 2 on is marked exactly when one live inode points at it,
  and no two live pointers share a block;
- (c) a free inode has no pointers;
- (d) the used entries of a directory's block have distinct names;
- (e) a directory's size is 32 times its number of used entries.

(d) and (e) are required only of live directories whose slot-0 pointer is
set (`State.DirsOk`). A directory that mkdir left without a block would have
no entry table to check.

Format, chmod, cd, create, mkdir, insert, remove, delete, write to a regular
file and copy all keep the invariants, on their failure paths too.

A consistent state never runs out of blocks (`Capacity`). Its 100 records
of four pointers name at most 400 blocks, and 1022 blocks from 2 on can be
granted, so with (b) some block is always clear. Write, mkdir and copy
therefore never fail with `NoFreeBlock` when they start from a state that
meets the invariants. The out-of-blocks branches of the C are still
modelled. With every block from 2 on marked, at least 622 marked blocks are
named by no pointer at all, live or free (`Capacity.FullNeedsOrphans`). When
every marked block is named before a write, it still is after, whatever
the inode the write goes to (`Capacity.WriteKeepsHeld`). A mark loses its last pointer when create,
mkdir or copy takes a free record that still holds pointers:
`alocar_inode` looks only at the kind (codigo_base/utilidades_fs.c:184-190),
and `inicializar_inode` zeroes the pointers without releasing their blocks
(utilidades_fs.c:162-176). A consistent state has no such record.
`CopyLeak.LeakState` is a state with such marks.

The source's own quirks are modelled as written, not fixed:

- the permission check falls through to the other triplet;
- insert checks write permission last;
- rename does not check that the new name is unused, and it can rename "."
  and "..". `Invariants.RenameCanDuplicate` shows that this breaks (d).
- delete does not check the kind;
- a copy that runs out of blocks resets only the kind, and keeps the blocks
  it took. `FileInvariants.CopyOutOfBlocksLeaks` shows that this breaks (c)
  whenever that happens with some block free at the start, and
  `CopyLeak.CopyLeakWitness` exhibits a state where it does.
- failed inserts in mkdir and copy leave a live, unlinked inode;
- a failed create resets only the kind.

When a directory has no entry block, insert, remove and rename work on
block 0, the reserved block, exactly as the C does.

Three details of the code that the model keeps:

- The superblock that `formatar_disco` writes
  (codigo_base/utilidades_fs.c:223-228) names block 1 as the root's. In
  memory, though, the root gets block 2. The bitmap is cleared
  (utilidades_fs.c:207-208) before `inicializar_diretorio_raiz` runs, and
  `alocar_bloco` starts its search at 2 (codigo_base/operacoes_arq.c:16).
- Format clears only the inode table and the bitmap in memory
  (utilidades_fs.c:206-208). The in-memory data blocks other than the root's
  keep their bytes; only the disk image is zero-filled.
- `ler_arquivo` checks read permission before it checks that the inode is a
  regular file (codigo_base/operacoes_arq.c:199-206).

## Model

| member | source | states |
|---|---|---|
| Layout.DerivedSizes | definicoes/sistema_arq.h:7-14 | 4 MiB of 4096-byte blocks is 1024 blocks with a 128-byte bitmap; entries are 32 bytes, 128 to a block; a file holds at most 16384 bytes; the default modes are 0755 and 0644 |
| Bitmap.SetBit | codigo_base/operacoes_arq.c:21-23 | setting bit i leaves every other block's bit as it was |
| Bitmap.Allocate | codigo_base/operacoes_arq.c:14-31 | the grant is the least block from 2 whose bit is clear, only its bit becomes set; when every block from 2 is marked the result is 0 and the bitmap is unchanged |
| Bitmap.Release | codigo_base/operacoes_arq.c:38-48 | only the bit of the given block is cleared; ids 0 and 1024 or more change nothing |
| Bitmap.ReleaseUndoesAllocate | codigo_base/operacoes_arq.c:14-48 | releasing the block just granted gives back the bitmap from before the grant |
| Bitmap.AllocateAfterRelease | codigo_base/operacoes_arq.c:14-48 | after block id (2 or more) is released, the next grant is a block no larger than id |
| Bitmap.AllocateTwiceDistinct | codigo_base/operacoes_arq.c:14-31 | two grants in a row never hand out the same block |
| Permissions.AllowedIff | codigo_base/utilidades_fs.c:53-86 | access is granted exactly when the caller owns the inode and the owner triplet has a requested bit, or the caller's group is the owner's principal group and the group triplet has one, or the other triplet has one |
| Permissions.ZeroModeDeniesAll | codigo_base/utilidades_fs.c:59-85 | mode 000 denies every request to every user, root included |
| Permissions.FileModeReadableByAll | codigo_base/utilidades_fs.c:59-85 | mode 0644 grants read to any user |
| Permissions.StrangerUsesOther | codigo_base/utilidades_fs.c:66-79 | a caller who is neither the owner nor in the owner's group gets exactly what the other triplet grants |
| Permissions.OwnerFallsThroughToOther | codigo_base/utilidades_fs.c:58-79 | an owner whose own triplet lacks read is still granted read by the other triplet |
| Permissions.ChmodMode | codigo_base/utilidades_fs.c:110-111 | the stored mode is at most 0x1FF and keeps exactly the low nine bits of the request |
| Permissions.Symbolic | codigo_base/utilidades_fs.c:124-153 | the rendering has nine characters; character 3k+j is "rwx"[j] when that bit of triplet k (owner, group, other) is set and '-' otherwise |
| Permissions.SymbolicIgnoresHighBits | codigo_base/utilidades_fs.c:124-153 | bits above the ninth do not change the rendering |
| Permissions.SymbolicDefaults | codigo_base/utilidades_fs.c:124-153 | the directory default renders as rwxr-xr-x and the file default as rw-r--r-- |
| Dirent.CName | codigo_base/operacoes_dir.c:28-29 | the name strcmp compares is the prefix of the field before its first NUL, or the whole field |
| Dirent.NameFieldReadsBack | codigo_base/operacoes_dir.c:99 | a name shorter than 28 bytes stored with strncpy reads back as itself |
| Dirent.DecodeEncode | definicoes/sistema_arq.h:68-71 | an entry encoded into its 32 bytes decodes to the same name and inode id |
| Dirent.Le32OfU32 | definicoes/sistema_arq.h:70 | a 32-bit id stored little-endian reads back unchanged |
| Dirent.TableAfterPut | codigo_base/operacoes_dir.c:99-100 | the two stores into slot i change entry i to (name, id) and no other entry |
| Dirent.TableAfterClear | codigo_base/operacoes_dir.c:146 | zeroing slot i empties entry i and no other entry |
| Dirent.TableAfterRename | codigo_base/operacoes_arq.c:306-307 | renaming slot i gives entry i the new name cut to 27 bytes, with its inode id kept, and leaves the other entries alone |
| Dirent.TableOfDirBlock | codigo_base/operacoes_dir.c:198-207 | a new directory block has "." to self in slot 0, ".." to the parent in slot 1, and every other slot empty |
| Dirent.FindName | codigo_base/operacoes_arq.c:302-303 | the result is the first used entry with the name, or the table length when no entry has it |
| Dirent.FirstEmpty | codigo_base/operacoes_dir.c:91-92 | the result is the first unused slot, or the table length when every slot is used |
| State.InitializeInode | codigo_base/utilidades_fs.c:162-176 | the slot holds the given id, kind, mode and the caller as owner, with size 0 and all four pointers 0; nothing else changes |
| State.AllocInode | codigo_base/utilidades_fs.c:183-193 | the result is the least slot from 1 with kind 0, or 0 when there is none; nothing is reserved |
| State.Chmod | codigo_base/utilidades_fs.c:95-117 | id 0, an id of 100 or more, or a free inode fails with no change; a caller who is neither the owner nor root fails with no change; otherwise only the mode changes, to the request masked to nine bits |
| Directory.Lookup | codigo_base/operacoes_dir.c:19-34 | the result is the id of the first used entry with the name; it is 0 when the directory id is 0, the directory has no entry block, or no entry has the name |
| Directory.Insert | codigo_base/operacoes_dir.c:71-114 | the failures, in order: an id is 0, not a directory, name present, no empty slot, write denied; each leaves the state unchanged; on success the first empty slot holds the entry, the size grows by 32 and nothing else changes |
| Directory.InsertedFound | codigo_base/operacoes_dir.c:85-103 | after a successful insert into a directory with a block, lookup finds the new name at the new id |
| Directory.LookupAfterPlacing | codigo_base/operacoes_dir.c:19-34 | a name absent from a table and then placed in one slot is found at that slot's id |
| Directory.Remove | codigo_base/operacoes_dir.c:120-159 | the failures, in order: id 0, write denied, "." or "..", name absent; each leaves the state unchanged; on success the first matching entry is emptied, its id is returned, the size shrinks by 32 and no inode is freed |
| Directory.InitRoot | codigo_base/operacoes_dir.c:39-65 | the first free block becomes the root's entry block, and only its bit is set; "." and ".." both name the root; the size is 64; only the root's slot 0 and size change, no other record, no block but the new one, and not the current directory |
| Directory.Mkdir | codigo_base/operacoes_dir.c:169-222 | the failures, in order: name of 28 bytes or more, write denied, no free inode, each with no change; otherwise the new inode is a 0755 directory of the caller's; running out of blocks leaves it live with no pointers; on success the name resolves to it, and `Directory.MadeDir` holds: only the first free block's bit is newly set, that block is the new directory's slot 0 and its other slots are empty, no record but the new one and the current directory's changes, and (unless the current directory is the new inode or already uses that block) the new directory has size 64, "." resolving to itself and ".." to the current directory |
| Directory.MkdirAt | codigo_base/operacoes_dir.c:190-221 | the new directory is live whatever happens; it fails with NoFreeBlock exactly when no block is free; on success it is found under its name; on every path past the block grant, the failed insert included, `Directory.MadeDir` holds (new block, "." and "..", size 64, frame) |
| Directory.DirBlockLinks | codigo_base/operacoes_dir.c:199-207 | in a directory whose entry block is the fresh "."/".." block, "." resolves to itself and ".." to the parent |
| Directory.Cd | codigo_base/operacoes_dir.c:227-251 | only the current directory can change; the failures, in order: name absent, not a directory, execute denied; otherwise the current directory becomes the named inode |
| Content.Chunk | codigo_base/operacoes_arq.c:173-178 | piece k of the content is 4096 bytes, or what is left of it |
| Content.BlocksNeeded | codigo_base/operacoes_arq.c:144 | the block count is the least n with n * 4096 at least the length |
| Content.Truncate | codigo_base/operacoes_arq.c:152-157 | slots from `from` on become 0, with their blocks' bits cleared; slots before it, the other inodes and all block bytes are unchanged |
| Content.Place | codigo_base/operacoes_arq.c:160-178 | a set slot is reused with the bitmap unchanged; an empty slot gets exactly the first free block (`Bitmap.Allocate`), with only its bit set, and the round fails exactly when there is none; the chunk is copied to the block's start, and the block's other bytes stay; when no block is free nothing changes |
| Content.Fill | codigo_base/operacoes_arq.c:160-179 | set slots keep their blocks, slots outside the range are untouched; on success every slot in the range is set; a failure happens only with every block marked |
| Content.FillBitmap | codigo_base/operacoes_arq.c:160-171 | the loop sets exactly the bits of the blocks it puts into empty slots, and those blocks were free before |
| Content.FillUntouched | codigo_base/operacoes_arq.c:160-179 | a block the file does not end up pointing at keeps its bytes |
| Content.FillContent | codigo_base/operacoes_arq.c:173-178 | on success slot k's block starts with piece k of the content |
| Content.Write | codigo_base/operacoes_arq.c:128-149 | the failures, in order: name absent, write denied, more than 4 blocks needed; each leaves the state unchanged; otherwise the outcome is exactly `Content.WriteInode` on the named inode |
| Content.WriteInode | codigo_base/operacoes_arq.c:144-185 | kind, mode, owner and id are kept and other inodes unchanged; slots from the needed count on are 0; set slots below it keep their block; on success every needed slot is set and the size is the content length; on failure the size is unchanged |
| Content.Emit | codigo_base/operacoes_arq.c:208-223 | output byte j is byte j % 4096 of slot j / 4096's block; the output is cut exactly when some empty slot is reached while bytes are still owed; uncut output has min(size, capacity) bytes |
| Content.Read | codigo_base/operacoes_arq.c:191-226 | the failures, in order: name absent, read denied, not a regular file; otherwise the bytes returned are at most the size |
| ContentLemmas.WriteSparesOthers | codigo_base/operacoes_arq.c:152-179 | a marked block the file does not point at keeps its bytes through a write |
| ContentLemmas.WriteStores | codigo_base/operacoes_arq.c:160-181 | after a successful write, slot k's block starts with piece k of the content |
| ContentLemmas.WriteKeepsLookup | codigo_base/operacoes_arq.c:128-186 | writing a regular file leaves the name resolving to the same inode |
| ContentLemmas.EmitChunks | codigo_base/operacoes_arq.c:208-223 | reading an inode whose blocks start with the content's pieces and whose size is the content length gives the content, uncut |
| ContentLemmas.ReadAfterWrite | codigo_base/operacoes_arq.c:128-226 | a successful write followed by a read by a user allowed to read gives back exactly the content written, with no lost-data warning |
| Files.CreateFile | codigo_base/operacoes_arq.c:55-87 | the failures, in order: name of 28 bytes or more, write denied, no free inode, each with no change; on success the new inode is a 0644 file of the caller's, with size 0 and no blocks, found under its name; when linking fails only the kind is reset; an existing name gives AlreadyExists |
| Files.ReleaseAll | codigo_base/operacoes_arq.c:106-111 | the bits of exactly the blocks the pointers hold are cleared |
| Files.Delete | codigo_base/operacoes_arq.c:92-116 | write denied, or a failing remove, leaves the state unchanged; otherwise the record is zeroed whatever its kind, the bits of its blocks are cleared, and block bytes are kept |
| Files.Rename | codigo_base/operacoes_arq.c:291-317 | write denied or name absent leaves the state unchanged; otherwise only the first matching entry's name changes, to the new name cut to 27 bytes; inodes and bitmap are unchanged |
| Files.CopySlot | codigo_base/operacoes_arq.c:257-274 | a set source slot gets a fresh block, not marked before, with only its bit set, holding the source block's 4096 bytes; when no block is free nothing changes |
| Files.Clone | codigo_base/operacoes_arq.c:257-275 | the copy's slots that match empty source slots are unchanged; on success every slot matching a set source slot is set; a failure happens only with every block marked |
| Files.CloneBitmap | codigo_base/operacoes_arq.c:257-275 | the loop sets exactly the bits of the blocks it gives the copy, and those blocks were free |
| Files.CloneKeepsMarked | codigo_base/operacoes_arq.c:257-275 | blocks marked before the copy stay marked and keep their bytes |
| Files.CloneContent | codigo_base/operacoes_arq.c:257-275 | every slot the loop fills holds the bytes of the source's block in the same slot |
| Files.Copy | codigo_base/operacoes_arq.c:234-285 | the failures, in order: source absent, read denied, no free inode, each with no change; otherwise the copy goes into the first free inode |
| Files.Duplicate | codigo_base/operacoes_arq.c:252-275 | the copy has the source's kind, mode and size with the caller as owner; on success its slots are set exactly where the source's are |
| Files.CopyInto | codigo_base/operacoes_arq.c:252-285 | running out of blocks leaves the copy's kind free; otherwise it has the source's kind; on success the copy's id is returned |
| Files.Link | codigo_base/operacoes_arq.c:277-284 | the copy is entered in the current directory, where the name then resolves to it; a failing insert changes nothing |
| DirFacts.DirBlockOk | codigo_base/operacoes_dir.c:198-209 | a new directory block has distinct names and exactly two used entries, matching the initial size of 64 |
| DirFacts.InsertKeepsInv | codigo_base/operacoes_dir.c:71-114 | a successful insert keeps the invariants |
| DirFacts.RemoveKeepsInv | codigo_base/operacoes_dir.c:120-159 | a successful remove keeps the invariants |
| Invariants.ChmodKeepsInv | codigo_base/utilidades_fs.c:95-117 | chmod keeps the invariants |
| Invariants.CdKeepsInv | codigo_base/operacoes_dir.c:227-251 | cd keeps the invariants |
| Invariants.RenameKeepsInv | codigo_base/operacoes_arq.c:291-317 | a rename to a name no other used entry has keeps the invariants |
| Invariants.RenameCanDuplicate | codigo_base/operacoes_arq.c:302-307 | renaming one present name to another present name succeeds and leaves two entries with the same name |
| Invariants.CreateFileKeepsInv | codigo_base/operacoes_arq.c:55-87 | create keeps the invariants on every path, failures included |
| Invariants.MkdirKeepsInv | codigo_base/operacoes_dir.c:169-222 | mkdir keeps the invariants on every path, failures included |
| Invariants.MkdirLinksParent | codigo_base/operacoes_dir.c:199-209 | on a consistent state, a successful mkdir of an inode other than the current directory leaves it with an entry block, size 64, "." resolving to itself and ".." resolving to the current directory |
| FileInvariants.DeleteKeepsInv | codigo_base/operacoes_arq.c:92-116 | delete keeps the invariants |
| FileInvariants.WriteKeepsInv | codigo_base/operacoes_arq.c:128-186 | a write whose name is absent, or names a regular file, keeps the invariants |
| FileInvariants.CopyKeepsInv | codigo_base/operacoes_arq.c:234-285 | copy keeps the invariants on every path, also when the final insert fails |
| FileInvariants.CopyOutOfBlocksLeaks | codigo_base/operacoes_arq.c:261-266 | on a well-formed state whose free records hold no pointers and with some block free at the start, a copy that runs out of blocks leaves a free inode holding a block, breaking (c) |
| CopyLeak.CopyLeakWitness | codigo_base/operacoes_arq.c:257-266 | a concrete well-formed state with zeroed free records and a free block, but a marked block no pointer names, on which copying "a" runs out of blocks and leaves a free record holding a block |
| Capacity.HeldLeavesFree | definicoes/sistema_arq.h:9-14 | when every marked block from 2 on is named by some record's pointer, some block from 2 on is clear: 100 records of 4 pointers name at most 400 of the 1022 blocks |
| Capacity.FullNeedsOrphans | definicoes/sistema_arq.h:9-14 | when every block from 2 on is marked, at least 1022 - 400 = 622 of them are named by no pointer of any record |
| Capacity.InvHasFreeBlock | codigo_base/operacoes_arq.c:14-31 | on a consistent state some block from 2 on is clear and the allocator grants a block |
| Capacity.WriteKeepsHeld | codigo_base/operacoes_arq.c:152-178 | on any well-formed state where every marked block is named by some pointer, a write, whatever the kind of the inode it goes to, keeps every marked block named: the blocks it marks are the ones it puts into the inode's slots |
| Capacity.WriteNeverOutOfBlocks | codigo_base/operacoes_arq.c:152-171 | from a consistent state, write never fails for want of a block, whatever the name leads to |
| Capacity.MkdirNeverOutOfBlocks | codigo_base/operacoes_dir.c:193-194 | from a consistent state, mkdir never fails for want of a block |
| Capacity.CopyNeverOutOfBlocks | codigo_base/operacoes_arq.c:257-266 | from a consistent state, copy never fails for want of a block |
| FileInvariants.CopyDuplicates | codigo_base/operacoes_arq.c:257-274 | after a successful copy each set source slot has its own new block, different from the source's and holding the same bytes; empty slots stay empty; the copy's inode was free |
| Format.Format | codigo_base/utilidades_fs.c:199-248 | only inode 1 is live: a 0755 directory of the caller's, size 64, whose entry block is block 2 holding "." and ".." to itself; exactly bits 0, 1 and 2 are set; other blocks keep their bytes; the current directory is 1 |
| Format.FormatKeepsInv | codigo_base/utilidades_fs.c:199-248 | a freshly formatted state meets every invariant |
| Format.FormatRootLinks | codigo_base/operacoes_dir.c:47-63 | in the fresh root "." and ".." both resolve to the root |

## Left out

- The command loop in codigo_base/main.c: tokenising, octal parsing, the
  large-write buffer and user switching. The identity (current user, current
  group, principal-group lookup) is a parameter, `Permissions.Identity`.
  Format's return to the root (main.c:64-65) is part of `Format.Format`.
- The disk I/O of `formatar_disco`: opening and zero-filling the image, the
  superblock and the inode-table dump. Only the in-memory reset is modelled.
- `listar_diretorio`, which only prints.
- `inicializar_seguranca` and the group table. The access check never reads
  the group table, and the principal-group lookup is part of the identity.
- Timestamps, which come from the system clock.
- `printf` diagnostics. Read returns the bytes and a flag instead of writing
  them to standard output.
- The static buffer `formatar_permissoes` returns. The rendering is a value.
- The `exit(1)` when the root finds no free block. `Directory.InitRoot`
  requires a free block instead, and format always has one.
- C string hazards. `Directory.Insert` and `Files.Copy` require names shorter
  than 28 bytes: the C copies a longer name with strncpy and leaves it
  unterminated. A name field with no NUL is read as all 28 bytes, whereas the
  C would read on into the id.
- Entry ids of 100 or more, which only raw content written into a directory
  block can produce. The C indexes past the inode table there. The model
  fails with `OutOfTable`.
- Integer widths. The owner is a `uint8_t` in the C, and the user id is not
  truncated here. The principal-group lookup is a total function, where the
  C indexes a 10-entry table. Directory sizes wrap at 2^32 as in the C.
- Write content that contains NUL bytes. The C measures the content with
  `strlen`, and the model takes the byte sequence as given.
- Content.WriteInode: its contract does not describe the bitmap. The bitmap
  facts are in `Content.FillBitmap` and `Content.Truncate`, and the
  preservation lemma is `FileInvariants.WriteKeepsInv`.
- Content.Read: its contract bounds the output by the size only. The bytes
  are described by `Content.Emit`, and the round trip by
  `ContentLemmas.ReadAfterWrite`.
- FileInvariants.WriteKeepsInv: when the name resolves, it requires the
  named inode to be a regular file. A write to a directory replaces its
  entries with file bytes, which breaks (d) and (e). A write through an
  entry that names a free record whose mode still grants write gives blocks
  to that record, which breaks (c). The C checks neither the kind nor
  liveness before writing.
- Invariants.MkdirLinksParent: it says nothing when the new inode is the
  current directory itself. That happens only after the current directory
  was deleted: mkdir then reuses its id, and the insert writes the new name
  into the new directory's own block, so its size is 96, not 64.
- FileInvariants.CopyDuplicates: it requires a live current directory. After
  the current directory has been deleted, the copy can take its freed inode.
  When the source is a directory, the final insert then writes into the
  copy's own first block.
- Invariants.RenameKeepsInv: it requires the new name to be unused, because
  the C does not check it (see `Invariants.RenameCanDuplicate`).
