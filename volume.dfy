/** The block-level collaborators that the byte-stream layer calls into: the
    per-file block map (bfsFbnToDbn, bfsAllocBlock), the whole-block device
    (bfsRead, bioRead, bioWrite) and the free-block allocator behind them.
    Their code is not part of this model; the contracts below are the ones
    the read and write loops rely on. */
module Volumes {
  import opened Blocks

  /** blockMap: file block number -> device block number (absent = unmapped).
      disk: device block number -> block contents.
      free: device blocks the allocator hands out, in order. */
  datatype Volume = Volume(blockMap: map<nat, nat>, disk: map<nat, seq<byte>>, free: seq<nat>) {

    /** `dbn` names a real device block: never 0 (0 means "unmapped") and
        holding exactly one block of bytes. */
    ghost predicate Holds(dbn: nat) {
      dbn != 0 && dbn in disk && |disk[dbn]| == BytesPerBlock
    }

    /** Every mapped or free device block exists, no two file blocks share a
        device block, and a free block is neither mapped nor listed twice. */
    ghost predicate Valid() {
      && (forall f :: f in blockMap ==> Holds(blockMap[f]))
      && (forall i :: 0 <= i < |free| ==> Holds(free[i]))
      && (forall f, g :: f in blockMap && g in blockMap && f != g ==> blockMap[f] != blockMap[g])
      && (forall i, f :: 0 <= i < |free| && f in blockMap ==> free[i] != blockMap[f])
      && (forall i, j :: 0 <= i < j < |free| ==> free[i] != free[j])
    }

    /** bfsFbnToDbn: the device block of file block `fbn`, or 0 when unmapped. */
    function FbnToDbn(fbn: nat): (dbn: nat)
      requires Valid()
      ensures dbn == 0 <==> fbn !in blockMap
      ensures dbn != 0 ==> Holds(dbn)
    {
      if fbn in blockMap then blockMap[fbn] else 0
    }

    /** bfsRead: the contents of file block `fbn`; an unmapped block reads as
        zeros (a hole). */
    function BlockAt(fbn: nat): (b: seq<byte>)
      requires Valid()
      ensures |b| == BytesPerBlock
      ensures fbn !in blockMap ==> b == Zeros(BytesPerBlock)
    {
      if fbn in blockMap then disk[blockMap[fbn]] else Zeros(BytesPerBlock)
    }

    /** The file byte at position `pos`, read through the block map. */
    function ByteAt(pos: nat): byte
      requires Valid()
    {
      BlockAt(pos / BytesPerBlock)[pos % BytesPerBlock]
    }

    /** bfsAllocBlock: map the unmapped file block `fbn` to the next free
        device block and return that block's number, or return 0 and change
        nothing when no block is free. The new block is one no other file
        block uses, and every other file block reads as before. */
    function Allocate(fbn: nat): (r: (Volume, nat))
      requires Valid()
      requires fbn !in blockMap
      ensures r.0.Valid()
      ensures r.1 == 0 <==> free == []
      ensures r.1 == 0 ==> r.0 == this
      ensures r.1 != 0 ==> r.0.FbnToDbn(fbn) == r.1 && |r.0.free| == |free| - 1
      ensures r.1 != 0 ==> forall g :: g in blockMap ==> blockMap[g] != r.1
      ensures r.0.blockMap.Keys == if r.1 == 0 then blockMap.Keys else blockMap.Keys + {fbn}
      ensures forall g :: g != fbn ==> r.0.BlockAt(g) == BlockAt(g)
    {
      if free == [] then (this, 0)
      else (Volume(blockMap[fbn := free[0]], disk, free[1..]), free[0])
    }

    /** bioWrite: replace the contents of device block `dbn` with `blk`. The
        file block mapped to `dbn`, if any, now reads `blk`; every other file
        block reads as before, and the map and the free list are untouched. */
    function Store(dbn: nat, blk: seq<byte>): (v: Volume)
      requires Valid() && Holds(dbn)
      requires |blk| == BytesPerBlock
      ensures v.Valid()
      ensures v.blockMap == blockMap && v.free == free
      ensures forall g :: v.BlockAt(g) == if g in blockMap && blockMap[g] == dbn then blk else BlockAt(g)
    {
      Volume(blockMap, disk[dbn := blk], free)
    }
  }

  /** The number of file blocks in [lo, hi) that `blockMap` leaves unmapped:
      the number of blocks a write over that range has to allocate. */
  function Unmapped(blockMap: map<nat, nat>, lo: nat, hi: nat): (n: nat)
    decreases hi - lo
    ensures lo <= hi ==> n <= hi - lo
    ensures n == 0 <==> forall f :: lo <= f < hi ==> f in blockMap
  {
    if lo >= hi then 0
    else (if lo in blockMap then 0 else 1) + Unmapped(blockMap, lo + 1, hi)
  }

  /** Counting the unmapped blocks of a range is additive over any split of it. */
  lemma {:induction false} UnmappedSplit(blockMap: map<nat, nat>, lo: nat, mid: nat, hi: nat)
    requires lo <= mid <= hi
    ensures Unmapped(blockMap, lo, hi) == Unmapped(blockMap, lo, mid) + Unmapped(blockMap, mid, hi)
    decreases mid - lo
  {
    if lo < mid {
      UnmappedSplit(blockMap, lo + 1, mid, hi);
    }
  }

  /** Writing one stride: when file block `fbn` now holds its old contents
      with `stride` spliced in at the offset of `pos`, and no other file
      block changed, then exactly the bytes from `pos` on, |stride| of them,
      read `stride`, and every other byte of the file reads as before. */
  lemma SpliceStride(before: Volume, after: Volume, pos: nat, stride: seq<byte>)
    requires before.Valid() && after.Valid()
    requires pos % BytesPerBlock + |stride| <= BytesPerBlock
    requires after.BlockAt(pos / BytesPerBlock)
      == Splice(before.BlockAt(pos / BytesPerBlock), pos % BytesPerBlock, stride)
    requires forall g :: g != pos / BytesPerBlock ==> after.BlockAt(g) == before.BlockAt(g)
    ensures forall p: nat ::
      after.ByteAt(p) == if pos <= p < pos + |stride| then stride[p - pos] else before.ByteAt(p)
  {
    forall p: nat
      ensures after.ByteAt(p) == if pos <= p < pos + |stride| then stride[p - pos] else before.ByteAt(p)
    {
      if p / BytesPerBlock == pos / BytesPerBlock {
        SameBlockDistance(p, pos);
      }
    }
  }
}
