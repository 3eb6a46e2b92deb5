/** Sizes, kind codes and permission masks of the simulated device
    (definicoes/sistema_arq.h). Every other module reads its constants here. */
module Layout {

  /** One byte of the simulated device. */
  type byte = x: int | 0 <= x < 256

  const DiskMegabytes: nat := 4
  const BlockSize: nat := 4096
  /** Number of blocks on the device: 4 MiB / 4096. */
  const MaxBlocks: nat := DiskMegabytes * 1024 * 1024 / BlockSize
  /** Bytes of the free-block bitmap: one bit per block. */
  const BitmapBytes: nat := MaxBlocks / 8
  /** Bytes of a directory entry's name field, terminating NUL included. */
  const NameMax: nat := 28
  const MaxInodes: nat := 100
  const MaxPointers: nat := 4

  /** A directory entry is the name field followed by a 32-bit inode id. */
  const EntrySize: nat := NameMax + 4
  const EntriesPerBlock: nat := BlockSize / EntrySize

  /** Bytes one inode can address through its direct pointers. */
  const MaxFileSize: nat := MaxPointers * BlockSize

  /** Kind codes; a zeroed kind marks a free inode slot. */
  const KindFree: nat := 0
  const KindFile: nat := 1
  const KindDir: nat := 2

  /** Bits inside one rwx triplet, and where each triplet sits. */
  const PermR: bv16 := 4
  const PermW: bv16 := 2
  const PermX: bv16 := 1
  const ShiftOwner: nat := 6
  const ShiftGroup: nat := 3
  const ShiftOther: nat := 0

  const MaxUsers: nat := 10
  const RootUser: nat := 1
  const DefaultGroup: nat := 1

  /** The range of a uint32_t field. */
  const U32Limit: nat := 0x1_0000_0000

  /** Default modes: rwxr-xr-x for directories, rw-r--r-- for files. */
  const DirMode: bv16 := ((PermR | PermW | PermX) << ShiftOwner) | ((PermR | PermX) << ShiftGroup) | ((PermR | PermX) << ShiftOther)
  const FileMode: bv16 := ((PermR | PermW) << ShiftOwner) | (PermR << ShiftGroup) | (PermR << ShiftOther)

  function Zeros(n: nat): (z: seq<byte>)
    ensures |z| == n
    ensures forall i | 0 <= i < n :: z[i] == 0
  {
    seq(n, _ => 0)
  }

  /** The derived sizes the header promises. */
  lemma DerivedSizes()
    ensures MaxBlocks == 1024 && BitmapBytes == 128 && BitmapBytes * 8 == MaxBlocks
    ensures EntrySize == 32 && EntriesPerBlock == 128 && EntriesPerBlock * EntrySize == BlockSize
    ensures MaxFileSize == 16384
    ensures DirMode == 0x1ED && FileMode == 0x1A4
  {
  }
}
