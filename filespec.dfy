/** What reading, writing and seeking mean for the file as a sequence of
    bytes, independent of blocks: the specification the block-level loops
    of the Fs module are proved against. */
module FileSpec {
  import opened Blocks
  import opened Errors

  /** Seek bases, with the values <stdio.h> gives SEEK_SET, SEEK_CUR, SEEK_END. */
  const SeekSet: int := 0
  const SeekCur: int := 1
  const SeekEnd: int := 2

  function Max(a: nat, b: nat): nat { if a >= b then a else b }

  /** How many bytes fsRead transfers for a request of `numb > 0` bytes at
      `cursor` in a file of `size` bytes: none at or past the end of the
      file, never more than requested, and fewer only when the end of the
      file is reached. */
  function ReadCount(cursor: nat, size: nat, numb: nat): (n: nat)
    ensures n <= numb
    ensures cursor >= size ==> n == 0
    ensures cursor < size ==> cursor + n <= size
    ensures n < numb ==> cursor + n >= size
  {
    if cursor >= size then 0
    else if cursor + numb > size then size - cursor
    else numb
  }

  /** The bytes fsRead copies into the caller's buffer: the file's bytes from
      `cursor` on, as many as ReadCount allows. */
  function ReadSpec(file: seq<byte>, cursor: nat, numb: nat): (r: seq<byte>)
    ensures |r| == ReadCount(cursor, |file|, numb)
    ensures forall i :: 0 <= i < |r| ==> cursor + i < |file| && r[i] == file[cursor + i]
  {
    if cursor >= |file| then [] else file[cursor .. cursor + ReadCount(cursor, |file|, numb)]
  }

  /** The file after fsWrite puts nonempty `data` at `at`: the written range
      holds `data`, every other byte below the old size is kept, the file
      grows to the end of the write if that lies past its old size, and a gap
      between the old end and `at` reads as zeros. It describes writes of at
      least one byte only: fsWrite with a count of 0 returns before touching
      the size, even when the cursor lies past the end of the file. */
  function Overwrite(file: seq<byte>, at: nat, data: seq<byte>): (r: seq<byte>)
    ensures |r| == Max(|file|, at + |data|)
    ensures forall i :: 0 <= i < |r| ==>
      r[i] == if at <= i < at + |data| then data[i - at] else if i < |file| then file[i] else 0
  {
    var padded := if at + |data| > |file| then file + Zeros(at + |data| - |file|) else file;
    padded[..at] + data + padded[at + |data|..]
  }

  /** fsSeek's rule for the new cursor: a negative offset is refused before
      the base is looked at; SEEK_SET, SEEK_CUR and SEEK_END measure the
      offset from 0, from the cursor and from the end of the file; any other
      base is refused. */
  function SeekTarget(cursor: nat, size: nat, offset: int, whence: int): (r: Result<nat>)
    ensures offset < 0 ==> r == Err(BadCursor)
    ensures offset >= 0 && whence == SeekSet ==> r == Ok(offset)
    ensures offset >= 0 && whence == SeekCur ==> r == Ok(cursor + offset)
    ensures offset >= 0 && whence == SeekEnd ==> r == Ok(size + offset)
    ensures offset >= 0 && whence != SeekSet && whence != SeekCur && whence != SeekEnd ==> r == Err(BadWhence)
  {
    if offset < 0 then Err(BadCursor)
    else if whence == SeekSet then Ok(offset)
    else if whence == SeekCur then Ok(cursor + offset)
    else if whence == SeekEnd then Ok(size + offset)
    else Err(BadWhence)
  }

  /** Writing `data` at `at`, going back to `at` and reading |data| bytes
      gives `data` back. */
  lemma RoundTrip(file: seq<byte>, at: nat, data: seq<byte>)
    ensures ReadSpec(Overwrite(file, at, data), at, |data|) == data
  {
    var after := Overwrite(file, at, data);
    var back := ReadSpec(after, at, |data|);
    assert |back| == |data|;
    forall i | 0 <= i < |data| ensures back[i] == data[i] {
      assert after[at + i] == data[i];
    }
  }

  /** A write changes no byte of the file outside the range it writes. */
  lemma WriteFrame(file: seq<byte>, at: nat, data: seq<byte>, i: nat)
    requires i < |file|
    requires i < at || at + |data| <= i
    ensures ReadSpec(Overwrite(file, at, data), i, 1) == [file[i]]
  {
    var after := Overwrite(file, at, data);
    assert after[i] == file[i];
    assert ReadSpec(after, i, 1) == after[i..i + 1];
  }

  /** A write of at least one byte far past the end of an empty file leaves
      a hole that reads as zeros in front of the data. */
  lemma HoleReadsZero(at: nat, data: seq<byte>)
    requires |data| > 0
    ensures ReadSpec(Overwrite([], at, data), 0, at) == Zeros(at)
  {
    var after := Overwrite([], at, data);
    var hole := ReadSpec(after, 0, at);
    assert |hole| == at;
    forall i | 0 <= i < at ensures hole[i] == 0 {
      assert after[i] == 0;
    }
  }

  /** Seeking to the end and writing appends. */
  lemma SeekEndAppends(file: seq<byte>, cursor: nat, data: seq<byte>)
    ensures SeekTarget(cursor, |file|, 0, SeekEnd) == Ok(|file|)
    ensures Overwrite(file, |file|, data) == file + data
  {
    var after := Overwrite(file, |file|, data);
    assert |after| == |file + data|;
    forall i | 0 <= i < |after| ensures after[i] == (file + data)[i] {
    }
  }

  // The branches at fs.c:96-108 and fs.c:214-226, as written. Both fire at
  // a cursor of exactly 49 blocks and fabricate bytes instead of going
  // through the block map.

  /** fsRead as written, for `numb > 0`: the count it returns and the bytes it
      leaves in the caller's buffer. At a cursor of 49 blocks with at least
      700 bytes requested it reports 700 bytes of the value 99, whatever the
      file holds and however long it is. */
  function ReadAsWritten(file: seq<byte>, cursor: nat, numb: nat): (r: (nat, seq<byte>))
    requires numb > 0
    ensures r.0 <= numb
    ensures |r.1| <= numb
  {
    if cursor == 49 * BytesPerBlock && numb >= 700 then
      (700, seq(700, _ => 99) + Zeros(numb - 700))
    else
      (ReadCount(cursor, |file|, numb), ReadSpec(file, cursor, numb))
  }

  /** The as-written read reports 700 bytes from an empty file, where the
      read contract allows none. */
  lemma ReadAsWrittenPastEof()
    ensures ReadAsWritten([], 49 * BytesPerBlock, 700).0 == 700
    ensures ReadCount(49 * BytesPerBlock, 0, 700) == 0
  {
  }

  /** fsWrite as written, for nonempty `data`: the file afterwards and the
      caller's buffer afterwards. At a cursor of 49 blocks with exactly 700
      bytes it raises the size but writes no block, and overwrites the
      caller's buffer with 99s. */
  function WriteAsWritten(file: seq<byte>, cursor: nat, data: seq<byte>): (r: (seq<byte>, seq<byte>))
    requires |data| > 0
    ensures |r.0| == Max(|file|, cursor + |data|)
    ensures |r.1| == |data|
  {
    if cursor == 49 * BytesPerBlock && |data| == 700 then
      (file + Zeros(Max(|file|, cursor + 700) - |file|), seq(700, _ => 99))
    else
      (Overwrite(file, cursor, data), data)
  }

  /** The as-written write loses the data, and the as-written read hides
      the loss: the file's bytes in the written range are zeros, the
      caller's buffer no longer holds the data, and reading the range back
      at that cursor gives exactly the overwritten buffer (700 bytes of 99),
      so comparing the read against the buffer succeeds. */
  lemma WriteAsWrittenLosesData()
    ensures var data := seq(700, _ => 1);
      var (after, src) := WriteAsWritten([], 49 * BytesPerBlock, data);
      && src != data
      && after[49 * BytesPerBlock .. 49 * BytesPerBlock + 700] == Zeros(700)
      && ReadAsWritten(after, 49 * BytesPerBlock, 700).1 == src
  {
    var data: seq<byte> := seq(700, _ => 1);
    var (after, src) := WriteAsWritten([], 49 * BytesPerBlock, data);
    assert after == Zeros(49 * BytesPerBlock + 700);
    assert src[0] == 99;
    var back := ReadAsWritten(after, 49 * BytesPerBlock, 700).1;
    assert back == seq(700, _ => 99) + Zeros(0);
    assert back == src;
  }
}
