/** The byte-stream layer of fs.c: one open session on one file, with the
    session's cursor, the file's size and the block storage underneath, and
    the read, write, seek, tell and size operations on it. */
module Fs {
  import opened Blocks
  import opened Errors
  import opened Volumes
  import FileSpec

  /** The first `n` bytes of the file stored in `v`. */
  ghost function Image(v: Volume, n: nat): (s: seq<byte>)
    requires v.Valid()
    ensures |s| == n
    ensures forall i :: 0 <= i < n ==> s[i] == v.ByteAt(i)
  {
    seq(n, i requires 0 <= i && v.Valid() => v.ByteAt(i))
  }

  /** The file blocks a write of `numb > 0` bytes at `cursor` touches are
      `cursor / BytesPerBlock` up to, but not including, this one. */
  function BlockEnd(cursor: nat, numb: nat): nat
  {
    if numb == 0 then cursor / BytesPerBlock else (cursor + numb - 1) / BytesPerBlock + 1
  }

  /** How a write of `data` at `c` leaves the file: when every byte in the
      written range reads `data` and every other byte reads as before, the
      file's contents are FileSpec.Overwrite of the old ones, and the bytes
      past the new size still read as zeros. */
  lemma WrittenImage(v0: Volume, v: Volume, size0: nat, c: nat, data: seq<byte>)
    requires v0.Valid() && v.Valid()
    requires forall p: nat :: size0 <= p ==> v0.ByteAt(p) == 0
    requires forall p: nat ::
      v.ByteAt(p) == if c <= p < c + |data| then data[p - c] else v0.ByteAt(p)
    ensures forall p: nat :: FileSpec.Max(size0, c + |data|) <= p ==> v.ByteAt(p) == 0
    ensures Image(v, FileSpec.Max(size0, c + |data|)) == FileSpec.Overwrite(Image(v0, size0), c, data)
  {
    var size := FileSpec.Max(size0, c + |data|);
    var now := Image(v, size);
    var spec := FileSpec.Overwrite(Image(v0, size0), c, data);
    assert |now| == |spec|;
    forall i | 0 <= i < size ensures now[i] == spec[i] {
      if !(c <= i < c + |data|) && size0 <= i {
        assert v0.ByteAt(i) == 0;
      }
    }
  }

  /** A block boundary: the first byte of a block follows the last byte of
      the block before it. */
  lemma BlockBoundary(q: nat)
    requires q > 0 && q % BytesPerBlock == 0
    ensures q / BytesPerBlock == (q - 1) / BytesPerBlock + 1
  {
  }

  /** The bytes fsWrite's loop has written after the first `w` bytes of
      `data` went to `c`, starting from the volume `v0`: those bytes read
      `data`, all others read as in `v0`, and the loop stopped at a block
      boundary unless it is done. */
  ghost predicate WrittenUpTo(v0: Volume, v: Volume, c: nat, data: seq<byte>, w: nat)
  {
    && v0.Valid() && v.Valid() && w <= |data|
    && (w == 0 || w == |data| || (c + w) % BytesPerBlock == 0)
    && (forall p: nat :: v.ByteAt(p) == if c <= p < c + w then data[p - c] else v0.ByteAt(p))
  }

  /** The blocks fsWrite's loop has allocated once it has passed the file
      blocks from `first` up to `done`: all of them are mapped, no other
      block was newly mapped, and one free block went to each passed block
      that `v0` left unmapped. */
  ghost predicate AllocatedUpTo(v0: Volume, v: Volume, first: nat, done: nat)
  {
    && first <= done
    && |v.free| + Unmapped(v0.blockMap, first, done) == |v0.free|
    && (forall f :: first <= f < done ==> f in v.blockMap)
    && (forall f :: f in v0.blockMap ==> f in v.blockMap)
    && (forall f :: f in v.blockMap ==> f in v0.blockMap || first <= f < done)
  }

  /** The state of fsWrite's stride loop once the first `w` bytes of `data`
      are written at position `c` of the file in `v0`. */
  ghost predicate StridesDone(v0: Volume, v: Volume, c: nat, data: seq<byte>, w: nat)
  {
    WrittenUpTo(v0, v, c, data, w) && AllocatedUpTo(v0, v, c / BytesPerBlock, BlockEnd(c, w))
  }

  /** The stride that follows the first `w` bytes starts at the first block
      the loop has not passed, and it ends in that block. */
  lemma NextStrideBlock(c: nat, len: nat, w: nat, n: nat)
    requires w < len && (w == 0 || (c + w) % BytesPerBlock == 0)
    requires n == StrideLen((c + w) % BytesPerBlock, len - w)
    ensures (c + w) / BytesPerBlock == BlockEnd(c, w)
    ensures BlockEnd(c, w + n) == BlockEnd(c, w) + 1
    ensures w + n == len || (c + w + n) % BytesPerBlock == 0
  {
    if w > 0 {
      BlockBoundary(c + w);
    }
    StrideInBlock(c + w, n - 1);
  }

  /** One successful stride keeps the written bytes of fsWrite's loop: after
      the block of position `c + w` has taken the next `n` bytes of `data`,
      the first `w + n` bytes are written. */
  lemma WriteStrideStep(v0: Volume, before: Volume, after: Volume, c: nat, data: seq<byte>, w: nat, n: nat)
    requires WrittenUpTo(v0, before, c, data, w) && w < |data|
    requires n == StrideLen((c + w) % BytesPerBlock, |data| - w)
    requires after.Valid()
    requires after.BlockAt((c + w) / BytesPerBlock)
      == Splice(before.BlockAt((c + w) / BytesPerBlock), (c + w) % BytesPerBlock, data[w .. w + n])
    requires forall g :: g != (c + w) / BytesPerBlock ==> after.BlockAt(g) == before.BlockAt(g)
    ensures WrittenUpTo(v0, after, c, data, w + n)
  {
    NextStrideBlock(c, |data|, w, n);
    SpliceStride(before, after, c + w, data[w .. w + n]);
  }

  /** Passing one more block keeps the allocation count of fsWrite's loop. */
  lemma {:induction false} AllocateStep(v0: Volume, before: Volume, after: Volume, first: nat, done: nat, next: nat)
    requires AllocatedUpTo(v0, before, first, done) && next == done + 1
    requires after.blockMap.Keys == before.blockMap.Keys + {done}
    requires |after.free| == |before.free| - if done in before.blockMap then 0 else 1
    ensures AllocatedUpTo(v0, after, first, next)
  {
    UnmappedSplit(v0.blockMap, first, done, done + 1);
  }

  /** A stride that finds its block unmapped and no free block left shows
      that the whole write needs more blocks than were free. */
  lemma {:induction false} WriteStrideFails(v0: Volume, v: Volume, first: nat, done: nat, last: nat)
    requires AllocatedUpTo(v0, v, first, done) && done < last
    requires done !in v.blockMap && v.free == []
    ensures Unmapped(v0.blockMap, first, last) > |v0.free|
  {
    UnmappedSplit(v0.blockMap, first, done, done + 1);
    UnmappedSplit(v0.blockMap, first, done + 1, last);
  }

  /** One pass of fsWrite's stride loop, successful or not. When the
      block of the next stride took its `n` bytes of `data`, the loop state
      moves on by `n` bytes and one block. When that block was unmapped and
      no block was free, the whole write needs more blocks than were free. */
  lemma StrideStep(v0: Volume, before: Volume, after: Volume, c: nat, data: seq<byte>, w: nat, n: nat,
                   stride: seq<byte>, stored: bool)
    requires StridesDone(v0, before, c, data, w) && w < |data|
    requires n == StrideLen((c + w) % BytesPerBlock, |data| - w)
    requires stride == data[w .. w + n]
    requires after.Valid()
    requires stored <==> (c + w) / BytesPerBlock in before.blockMap || before.free != []
    requires stored ==>
      after.BlockAt((c + w) / BytesPerBlock)
      == Splice(before.BlockAt((c + w) / BytesPerBlock), (c + w) % BytesPerBlock, stride)
    requires stored ==> forall g :: g != (c + w) / BytesPerBlock ==> after.BlockAt(g) == before.BlockAt(g)
    requires stored ==> after.blockMap.Keys == before.blockMap.Keys + {(c + w) / BytesPerBlock}
    requires stored ==> |after.free| == |before.free| - if (c + w) / BytesPerBlock in before.blockMap then 0 else 1
    ensures stored ==> StridesDone(v0, after, c, data, w + n)
    ensures !stored ==> Unmapped(v0.blockMap, c / BytesPerBlock, BlockEnd(c, |data|)) > |v0.free|
  {
    NextStrideBlock(c, |data|, w, n);
    if stored {
      WriteStrideStep(v0, before, after, c, data, w, n);
      AllocateStep(v0, before, after, c / BytesPerBlock, BlockEnd(c, w), BlockEnd(c, w + n));
    } else {
      WriteStrideFails(v0, before, c / BytesPerBlock, (c + w) / BytesPerBlock, BlockEnd(c, |data|));
    }
  }

  /** bfsRead: fill the scratch buffer with file block `fbn` of `v`. */
  method FetchBlock(v: Volume, fbn: nat, blockBuf: array<byte>)
    requires v.Valid()
    requires blockBuf.Length == BytesPerBlock
    modifies blockBuf
    ensures blockBuf[..] == v.BlockAt(fbn)
  {
    var block := v.BlockAt(fbn);
    forall i | 0 <= i < BytesPerBlock {
      blockBuf[i] := block[i];
    }
  }

  /** One stride of fsWrite: put bytes `from` up to `from + n` of `buf`
      into file block `fbn` of `v` at `offset`. An unmapped block is
      allocated (failing, with nothing changed, when no block is free) and
      starts from zeros; a mapped block the stride covers only in part is
      read first; a block the stride covers in full starts from zeros. The
      merged scratch block is then written back. */
  method WriteStride(v: Volume, fbn: nat, offset: nat, buf: array<byte>, from: nat, n: nat, blockBuf: array<byte>)
    returns (v': Volume, stored: bool)
    requires v.Valid()
    requires 1 <= n && offset + n <= BytesPerBlock && from + n <= buf.Length
    requires blockBuf.Length == BytesPerBlock && blockBuf != buf
    modifies blockBuf
    ensures v'.Valid()
    ensures stored <==> fbn in v.blockMap || v.free != []
    ensures !stored ==> v' == v
    ensures stored ==> v'.BlockAt(fbn) == Splice(v.BlockAt(fbn), offset, buf[from .. from + n])
    ensures stored ==> forall g :: g != fbn ==> v'.BlockAt(g) == v.BlockAt(g)
    ensures stored ==> v'.blockMap.Keys == v.blockMap.Keys + {fbn}
    ensures stored ==> |v'.free| == |v.free| - if fbn in v.blockMap then 0 else 1
  {
    v' := v;
    var dbn := v'.FbnToDbn(fbn);
    if dbn == 0 {
      var alloc := v'.Allocate(fbn);
      v', dbn := alloc.0, alloc.1;
      if dbn == 0 {
        return v', false;
      }
      forall i | 0 <= i < BytesPerBlock {
        blockBuf[i] := 0;
      }
      assert blockBuf[..] == v.BlockAt(fbn);
    } else if offset > 0 || n < BytesPerBlock {
      FetchBlock(v', fbn, blockBuf);
    } else {
      forall i | 0 <= i < BytesPerBlock {
        blockBuf[i] := 0;
      }
    }
    forall k | 0 <= k < n {
      blockBuf[offset + k] := buf[from + k];
    }
    assert blockBuf[..] == Splice(v.BlockAt(fbn), offset, buf[from .. from + n]);
    v' := v'.Store(dbn, blockBuf[..]);
    stored := true;
  }

  /** One pass of fsWrite's stride loop after `w` of the `numb` bytes are
      written: work out the stride that starts at `c + w` and write it. */
  method NextStride(v0: Volume, v: Volume, c: nat, numb: nat, buf: array<byte>, w: nat, blockBuf: array<byte>)
    returns (v': Volume, n: nat, stored: bool)
    requires numb <= buf.Length && w < numb
    requires StridesDone(v0, v, c, buf[..numb], w)
    requires blockBuf.Length == BytesPerBlock && blockBuf != buf
    modifies blockBuf
    ensures v'.Valid() && 0 < n && w + n <= numb
    ensures stored ==> StridesDone(v0, v', c, buf[..numb], w + n)
    ensures !stored ==> Unmapped(v0.blockMap, c / BytesPerBlock, BlockEnd(c, numb)) > |v0.free|
  {
    var pos := c + w;
    var fbn := pos / BytesPerBlock;
    var offset := pos % BytesPerBlock;
    n := StrideLen(offset, numb - w);
    ghost var data := buf[..numb];
    assert buf[w .. w + n] == data[w .. w + n];
    v', stored := WriteStride(v, fbn, offset, buf, w, n, blockBuf);
    StrideStep(v0, v, v', c, data, w, n, buf[w .. w + n], stored);
  }

  /** One pass of fsRead's stride loop after `done` of the `count` bytes are
      read: copy the stride that starts at file position `c + done` from its
      block into `buf` at `done`, leaving the rest of `buf` alone. */
  method ReadStride(v: Volume, c: nat, buf: array<byte>, done: nat, count: nat, blockBuf: array<byte>)
    returns (n: nat)
    requires v.Valid() && done < count <= buf.Length
    requires blockBuf.Length == BytesPerBlock && blockBuf != buf
    modifies buf, blockBuf
    ensures 0 < n && done + n <= count
    ensures forall i :: done <= i < done + n ==> buf[i] == v.ByteAt(c + i)
    ensures forall i :: 0 <= i < buf.Length && !(done <= i < done + n) ==> buf[i] == old(buf[i])
  {
    var pos := c + done;
    var offset := pos % BytesPerBlock;
    n := StrideLen(offset, count - done);
    FetchBlock(v, pos / BytesPerBlock, blockBuf);
    forall k | 0 <= k < n {
      buf[done + k] := blockBuf[offset + k];
    }
    forall i | done <= i < done + n ensures buf[i] == v.ByteAt(c + i) {
      StrideInBlock(pos, i - done);
    }
  }

  /** The stride loop of fsWrite: write the first `numb` bytes of `buf` at
      position `c` of the file in `v`, block by block. It fails exactly when
      the blocks it has to allocate outnumber the free blocks, and then stops
      at the first block it cannot allocate; otherwise it allocates exactly
      those blocks, the written range reads the bytes of `buf`, every other
      byte reads as before, and every block of the range is mapped. */
  method WriteStrides(v: Volume, c: nat, numb: nat, buf: array<byte>) returns (v': Volume, ok: bool)
    requires v.Valid() && 0 < numb <= buf.Length
    ensures v'.Valid()
    ensures var needed := Unmapped(v.blockMap, c / BytesPerBlock, BlockEnd(c, numb));
      && (ok <==> needed <= |v.free|)
      && (ok ==> |v'.free| == |v.free| - needed)
    ensures ok ==>
      && WrittenUpTo(v, v', c, buf[..numb], numb)
      && forall f :: c / BytesPerBlock <= f < BlockEnd(c, numb) ==> f in v'.blockMap
  {
    ghost var data := buf[..numb];
    v' := v;
    var bytesWritten := 0;
    var blockBuf := new byte[BytesPerBlock];
    while bytesWritten < numb
      invariant StridesDone(v, v', c, data, bytesWritten)
      decreases numb - bytesWritten
    {
      var bytesToWrite, stored;
      v', bytesToWrite, stored := NextStride(v, v', c, numb, buf, bytesWritten, blockBuf);
      if !stored {
        return v', false;
      }
      bytesWritten := bytesWritten + bytesToWrite;
    }
    ok := true;
  }

  /** One open session (an OFT entry and the inode it names): the cursor,
      the file size, and the block map, device and allocator behind the file. */
  class OpenFile {
    var cursor: nat
    var size: nat
    var vol: Volume

    /** The block storage is consistent, and every byte at or past the end
        of the file reads as zero (bytes past the size were never written). */
    ghost predicate Valid()
      reads this
    {
      vol.Valid() && forall p: nat :: size <= p ==> vol.ByteAt(p) == 0
    }

    /** The file's bytes, as a sequence of length `size`. */
    ghost function Contents(): (s: seq<byte>)
      reads this
      requires vol.Valid()
      ensures |s| == size
    {
      Image(vol, size)
    }

    /** A session on a file just created (or truncated) by fsCreate: cursor
        0, size 0, no blocks mapped; `disk` and `free` are the device and
        the allocator's free list. */
    constructor (disk: map<nat, seq<byte>>, free: seq<nat>)
      requires Volume(map[], disk, free).Valid()
      ensures Valid()
      ensures cursor == 0 && size == 0 && vol == Volume(map[], disk, free)
      ensures Contents() == []
    {
      cursor, size := 0, 0;
      vol := Volume(map[], disk, free);
    }

    /** fsTell: the session's cursor. */
    method Tell() returns (c: nat)
      ensures c == cursor
    {
      c := cursor;
    }

    /** fsSize: the file's size in bytes. */
    method Size() returns (s: nat)
      ensures s == size
    {
      s := size;
    }

    /** fsSeek: move the cursor by FileSpec.SeekTarget; a refused offset or
        base leaves the cursor where it was. The size never changes. */
    method Seek(offset: int, whence: int) returns (r: Result<()>)
      requires Valid()
      modifies this`cursor
      ensures Valid()
      ensures var t := FileSpec.SeekTarget(old(cursor), size, offset, whence);
        && (t.Ok? ==> r == Ok(()) && cursor == t.value)
        && (t.Err? ==> r == Err(t.error) && cursor == old(cursor))
    {
      if offset < 0 {
        return Err(BadCursor);
      }
      if whence == FileSpec.SeekSet {
        cursor := offset;
      } else if whence == FileSpec.SeekCur {
        cursor := cursor + offset;
      } else if whence == FileSpec.SeekEnd {
        var end := Size();
        cursor := end + offset;
      } else {
        return Err(BadWhence);
      }
      r := Ok(());
    }

    /** fsRead: copy up to `numb` bytes from the cursor into `buf`, one
        block-sized stride at a time, and advance the cursor by the number
        copied. A negative count is refused; a zero count returns 0 before
        the buffer is looked at; a missing buffer is refused. */
    method Read(numb: int, buf: array?<byte>) returns (r: Result<nat>)
      requires Valid()
      requires buf != null ==> numb <= buf.Length
      modifies this`cursor, buf
      ensures Valid()
      ensures numb < 0 ==> r == Err(NegativeLength)
      ensures numb == 0 ==> r == Ok(0)
      ensures numb > 0 && buf == null ==> r == Err(NullBuffer)
      ensures r.Err? || numb == 0 ==> cursor == old(cursor)
      ensures buf != null && (r.Err? || numb == 0) ==> buf[..] == old(buf[..])
      ensures numb > 0 && buf != null ==>
        && r.Ok?
        && r.value == FileSpec.ReadCount(old(cursor), size, numb)
        && cursor == old(cursor) + r.value
        && buf[..r.value] == FileSpec.ReadSpec(Contents(), old(cursor), numb)
        && buf[r.value..] == old(buf[r.value..])
    {
      if numb < 0 {
        return Err(NegativeLength);
      }
      if numb == 0 {
        return Ok(0);
      }
      if buf == null {
        return Err(NullBuffer);
      }
      var c := cursor;
      var fileSize := size;
      if c >= fileSize {
        return Ok(0);
      }
      var count := numb;
      if c + count > fileSize {
        count := fileSize - c;
      }
      var bytesRead := 0;
      var blockBuf := new byte[BytesPerBlock];
      while bytesRead < count
        invariant 0 <= bytesRead <= count
        invariant cursor == c
        invariant forall i :: 0 <= i < bytesRead ==> buf[i] == vol.ByteAt(c + i)
        invariant forall i :: count <= i < buf.Length ==> buf[i] == old(buf[i])
      {
        var bytesToRead := ReadStride(vol, c, buf, bytesRead, count, blockBuf);
        bytesRead := bytesRead + bytesToRead;
      }
      cursor := cursor + bytesRead;
      r := Ok(bytesRead);
      assert buf[..bytesRead] == FileSpec.ReadSpec(Contents(), c, numb);
    }

    /** fsWrite: write `numb` bytes of `buf` at the cursor, one block-sized
        stride at a time. An unmapped block is allocated and starts from
        zeros; a mapped block that the stride covers only in part is read
        and merged; a block covered in full is overwritten. Then the cursor
        advances by `numb` and the size grows to the end of the write if
        that lies past it. The write fails with DiskFull exactly when the
        blocks it has to allocate outnumber the free blocks; then the blocks
        written so far stay written but the cursor and the size do not move. */
    method Write(numb: int, buf: array?<byte>) returns (r: Result<()>)
      requires Valid()
      requires buf != null ==> numb <= buf.Length
      modifies this
      ensures vol.Valid()
      ensures numb < 0 ==> r == Err(NegativeLength)
      ensures numb == 0 ==> r == Ok(())
      ensures numb > 0 && buf == null ==> r == Err(NullBuffer)
      ensures numb <= 0 || buf == null ==> unchanged(this)
      ensures numb > 0 && buf != null ==>
        var needed := Unmapped(old(vol.blockMap), old(cursor) / BytesPerBlock, BlockEnd(old(cursor), numb));
        && (r.Ok? <==> needed <= |old(vol.free)|)
        && (r.Err? ==> r.error == DiskFull && cursor == old(cursor) && size == old(size))
        && (r.Ok? ==> |vol.free| == |old(vol.free)| - needed)
      ensures numb > 0 && buf != null && r.Ok? ==>
        && Valid()
        && cursor == old(cursor) + numb
        && size == FileSpec.Max(old(size), old(cursor) + numb)
        && Contents() == FileSpec.Overwrite(old(Contents()), old(cursor), buf[..numb])
        && forall f :: old(cursor) / BytesPerBlock <= f < BlockEnd(old(cursor), numb) ==> f in vol.blockMap
    {
      if numb < 0 {
        return Err(NegativeLength);
      }
      if numb == 0 {
        return Ok(());
      }
      if buf == null {
        return Err(NullBuffer);
      }
      var c := cursor;
      ghost var v0 := vol;
      var v, ok := WriteStrides(vol, c, numb, buf);
      vol := v;
      if !ok {
        return Err(DiskFull);
      }
      var bytesWritten := numb;
      cursor := cursor + bytesWritten;
      if c + bytesWritten > size {
        size := c + bytesWritten;
      }
      WrittenImage(v0, vol, old(size), c, buf[..numb]);
      r := Ok(());
    }
  }

  /** Write `data` at the cursor, seek back with SEEK_SET to where the write
      began, and read as many bytes: when the write succeeds, the bytes read
      back are `data`, the cursor ends after them, and every byte of the
      file outside the written range is as before. */
  method WriteSeekRead(f: OpenFile, data: array<byte>) returns (ok: bool, back: array<byte>)
    requires f.Valid() && data.Length > 0
    modifies f
    ensures fresh(back) && back.Length == data.Length
    ensures ok <==> Unmapped(old(f.vol.blockMap), old(f.cursor) / BytesPerBlock,
                             BlockEnd(old(f.cursor), data.Length)) <= |old(f.vol.free)|
    ensures ok ==> f.Valid() && back[..] == data[..] && f.cursor == old(f.cursor) + data.Length
    ensures ok ==> f.size == FileSpec.Max(old(f.size), old(f.cursor) + data.Length)
    ensures ok ==> forall i :: 0 <= i < old(f.size) && !(old(f.cursor) <= i < old(f.cursor) + data.Length) ==>
      f.Contents()[i] == old(f.Contents())[i]
  {
    var c := f.Tell();
    back := new byte[data.Length];
    var w := f.Write(data.Length, data);
    if w.Err? {
      return false, back;
    }
    ghost var written := f.Contents();
    assert written == FileSpec.Overwrite(old(f.Contents()), c, data[..]);
    var s := f.Seek(c, FileSpec.SeekSet);
    var r := f.Read(data.Length, back);
    assert f.Contents() == written;
    FileSpec.RoundTrip(old(f.Contents()), c, data[..]);
    ok := true;
  }

  /** fsSeek with SEEK_SET to `k`, then fsTell, gives `k` back. */
  method SeekSetThenTell(f: OpenFile, k: nat) returns (t: nat)
    requires f.Valid()
    modifies f
    ensures t == k && f.size == old(f.size)
  {
    var s := f.Seek(k, FileSpec.SeekSet);
    t := f.Tell();
  }
}
