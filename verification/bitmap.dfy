/** The free-block bitmap: 1024 bits packed into 128 bytes, bit i%8 of byte
    i/8 standing for block i (codigo_base/operacoes_arq.c:14-48). */
module Bitmap {
  import opened Layout

  predicate WellSized(bm: seq<bv8>) {
    |bm| == BitmapBytes
  }

  function Mask(i: nat): bv8 {
    (1 as bv8) << (i % 8)
  }

  /** Block i is in use. */
  predicate Bit(bm: seq<bv8>, i: nat)
    requires WellSized(bm) && i < MaxBlocks
  {
    bm[i / 8] & Mask(i) != 0
  }

  lemma MaskBits(i: nat, j: nat, b: bv8)
    ensures i % 8 != j % 8 ==> ((b | Mask(i)) & Mask(j) != 0) == (b & Mask(j) != 0)
    ensures i % 8 != j % 8 ==> ((b & !Mask(i)) & Mask(j) != 0) == (b & Mask(j) != 0)
    ensures (b | Mask(i)) & Mask(i) != 0
    ensures (b & !Mask(i)) & Mask(i) == 0
  {
  }

  /** Two different blocks in the same byte sit at different bit positions. */
  lemma SameByteDifferentBit(i: nat, j: nat)
    requires i != j && i / 8 == j / 8
    ensures i % 8 != j % 8
  {
  }

  /** Bit j after byte i/8 of the bitmap was replaced by v. */
  lemma BitAfterUpdate(bm: seq<bv8>, i: nat, v: bv8, j: nat)
    requires WellSized(bm) && i < MaxBlocks && j < MaxBlocks
    ensures Bit(bm[i / 8 := v], j) == if i / 8 == j / 8 then v & Mask(j) != 0 else Bit(bm, j)
  {
  }

  function SetBit(bm: seq<bv8>, i: nat): (r: seq<bv8>)
    requires WellSized(bm) && i < MaxBlocks
    ensures WellSized(r)
    ensures forall j | 0 <= j < MaxBlocks :: Bit(r, j) == (j == i || Bit(bm, j))
  {
    var v := bm[i / 8] | Mask(i);
    var r := bm[i / 8 := v];
    assert forall j | 0 <= j < MaxBlocks :: Bit(r, j) == (j == i || Bit(bm, j)) by {
      forall j | 0 <= j < MaxBlocks
        ensures Bit(r, j) == (j == i || Bit(bm, j))
      {
        BitAfterUpdate(bm, i, v, j);
        MaskBits(i, j, bm[i / 8]);
        if j != i && i / 8 == j / 8 {
          SameByteDifferentBit(i, j);
        }
      }
    }
    r
  }

  function ClearBit(bm: seq<bv8>, i: nat): (r: seq<bv8>)
    requires WellSized(bm) && i < MaxBlocks
    ensures WellSized(r)
    ensures forall j | 0 <= j < MaxBlocks :: Bit(r, j) == (j != i && Bit(bm, j))
  {
    var v := bm[i / 8] & !Mask(i);
    var r := bm[i / 8 := v];
    assert forall j | 0 <= j < MaxBlocks :: Bit(r, j) == (j != i && Bit(bm, j)) by {
      forall j | 0 <= j < MaxBlocks
        ensures Bit(r, j) == (j != i && Bit(bm, j))
      {
        BitAfterUpdate(bm, i, v, j);
        MaskBits(i, j, bm[i / 8]);
        if j != i && i / 8 == j / 8 {
          SameByteDifferentBit(i, j);
        }
      }
    }
    r
  }

  /** The first-fit scan of alocar_bloco from block `from` on; 0 when every
      block from there up is in use. */
  function FirstClear(bm: seq<bv8>, from: nat): (r: nat)
    requires WellSized(bm) && 2 <= from <= MaxBlocks
    ensures r == 0 || from <= r < MaxBlocks
    ensures r != 0 ==> !Bit(bm, r) && forall j | from <= j < r :: Bit(bm, j)
    ensures r == 0 ==> forall j | from <= j < MaxBlocks :: Bit(bm, j)
    decreases MaxBlocks - from
  {
    if from == MaxBlocks then 0
    else if !Bit(bm, from) then from
    else FirstClear(bm, from + 1)
  }

  /** A granted block id (0 when the device is full) and the new bitmap. */
  datatype Grant = Grant(id: nat, bitmap: seq<bv8>)

  /** alocar_bloco: the least clear block id from 2 on, marked in use. */
  function Allocate(bm: seq<bv8>): (g: Grant)
    requires WellSized(bm)
    ensures WellSized(g.bitmap)
    ensures g.id == 0 ==> g.bitmap == bm && forall j | 2 <= j < MaxBlocks :: Bit(bm, j)
    ensures g.id != 0 ==>
      && 2 <= g.id < MaxBlocks
      && !Bit(bm, g.id)
      && (forall j | 2 <= j < g.id :: Bit(bm, j))
      && (forall j | 0 <= j < MaxBlocks :: Bit(g.bitmap, j) == (j == g.id || Bit(bm, j)))
  {
    var id := FirstClear(bm, 2);
    if id == 0 then Grant(0, bm) else Grant(id, SetBit(bm, id))
  }

  /** liberar_bloco: clears bit `id`; ids 0 and out of range are ignored. */
  function Release(bm: seq<bv8>, id: nat): (r: seq<bv8>)
    requires WellSized(bm)
    ensures WellSized(r)
    ensures id == 0 || id >= MaxBlocks ==> r == bm
    ensures 0 < id < MaxBlocks ==> forall j | 0 <= j < MaxBlocks :: Bit(r, j) == (j != id && Bit(bm, j))
  {
    if id == 0 || id >= MaxBlocks then bm else ClearBit(bm, id)
  }

  /** Releasing a block just granted gives back the very same bitmap bytes. */
  lemma ReleaseUndoesAllocate(bm: seq<bv8>)
    requires WellSized(bm)
    ensures Allocate(bm).id != 0 ==> Release(Allocate(bm).bitmap, Allocate(bm).id) == bm
  {
    var g := Allocate(bm);
    if g.id != 0 {
      ClearAfterSet(bm, g.id);
    }
  }

  lemma ClearAfterSet(bm: seq<bv8>, i: nat)
    requires WellSized(bm) && 0 < i < MaxBlocks && !Bit(bm, i)
    ensures ClearBit(SetBit(bm, i), i) == bm
  {
    var k := i / 8;
    var set1 := bm[k := bm[k] | Mask(i)];
    ClearUndoesSet(bm[k], i);
    assert set1[k := set1[k] & !Mask(i)] == bm;
  }

  lemma ClearUndoesSet(b: bv8, i: nat)
    requires b & Mask(i) == 0
    ensures (b | Mask(i)) & !Mask(i) == b
  {
  }

  /** After block id (2 <= id) is released, first fit finds a block no later
      than id, so the freed id can be handed out again. */
  lemma AllocateAfterRelease(bm: seq<bv8>, id: nat)
    requires WellSized(bm) && 2 <= id < MaxBlocks
    ensures 2 <= Allocate(Release(bm, id)).id <= id
  {
    var r := Release(bm, id);
    assert !Bit(r, id);
  }

  /** No two allocations in a row return the same block. */
  lemma AllocateTwiceDistinct(bm: seq<bv8>)
    requires WellSized(bm)
    ensures var g := Allocate(bm); var h := Allocate(g.bitmap);
      g.id != 0 && h.id != 0 ==> g.id != h.id
  {
  }
}
