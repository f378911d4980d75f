/** Bytes, blocks and the decomposition of a byte position into a file block
    number and an offset inside that block. */
module Blocks {

  newtype byte = b: int | 0 <= b < 256

  /** BYTESPERBLOCK: every transfer to or from the block device moves one
      whole block of this many bytes. */
  const BytesPerBlock: nat := 512

  /** A block-sized (or any-sized) run of zero bytes, as memset(buf, 0, n) leaves it. */
  function Zeros(n: nat): (r: seq<byte>)
    ensures |r| == n
    ensures forall i :: 0 <= i < |r| ==> r[i] == 0
  {
    seq(n, _ => 0)
  }

  /** The length of one stride of the read and write loops: the bytes that
      remain in the current block after `offset`, but no more than `left`. */
  function StrideLen(offset: nat, left: nat): (n: nat)
    requires offset < BytesPerBlock
    requires left > 0
    ensures 1 <= n <= left
    ensures offset + n <= BytesPerBlock
    ensures n == left || offset + n == BytesPerBlock
  {
    if BytesPerBlock - offset > left then left else BytesPerBlock - offset
  }

  /** Every byte of a stride lies in the block of the stride's first byte,
      at the matching offset inside it. */
  lemma StrideInBlock(pos: nat, k: nat)
    requires pos % BytesPerBlock + k < BytesPerBlock
    ensures (pos + k) / BytesPerBlock == pos / BytesPerBlock
    ensures (pos + k) % BytesPerBlock == pos % BytesPerBlock + k
  {
  }

  /** Two positions in the same block are as far apart as their offsets. */
  lemma SameBlockDistance(p: nat, q: nat)
    requires p / BytesPerBlock == q / BytesPerBlock
    ensures p - q == p % BytesPerBlock - q % BytesPerBlock
  {
  }

  /** memcpy(block + offset, data, |data|): `data` copied into `block`
      starting at `offset`, every other byte of the block kept. */
  function Splice(block: seq<byte>, offset: nat, data: seq<byte>): (r: seq<byte>)
    requires offset + |data| <= |block|
    ensures |r| == |block|
    ensures forall i :: 0 <= i < |r| ==>
      r[i] == if offset <= i < offset + |data| then data[i - offset] else block[i]
  {
    block[..offset] + data + block[offset + |data|..]
  }
}
