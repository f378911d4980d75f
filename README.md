# fs.c byte-stream layer, modelled in Dafny

`fs.c` is the user-facing API of a small block file system (BFS). A file is
a byte sequence of length `size` stored in fixed-size blocks. `fs.c` does
not define the block size `BYTESPERBLOCK`; the model takes it to be 512,
as the 512 + 188 = 700 bytes at fs.c:99-101 imply. A per-file
block map sends each file block number (FBN) to a disk block number (DBN),
with 0 meaning "unmapped". An open session (an entry of the open file
table) carries a cursor. This project models the byte-stream core on top
of that block layer:

- `fsRead` splits the request into strides that each stay inside one
  block, fetches each block and copies out the overlapping bytes. It
  clamps the request at the end of the file and advances the cursor.
- `fsWrite` uses the same strides. An unmapped block is allocated and
  starts from zeros. A mapped block the stride only partly covers is read
  and merged (read-modify-write). A block covered in full is overwritten.
  Then the cursor advances and the size grows to the end of the write.
- `fsSeek`, `fsTell` and `fsSize` work on the cursor and the size.
- `fsOpen`, `fsCreate` and `fsClose` are thin wrappers that resolve a name
  through the directory and register or release the session.

Layout:

- `errors.dfy` (module `Errors`): the error codes ENEGNUMB, ENULLPTR,
  EBADCURS, EBADWHENCE, EDISKFULL and EFNF, and a `Result` type. The
  process abort `FATAL(code)` becomes `Err(code)`.
- `blocks.dfy` (module `Blocks`): bytes, the 512-byte block size, the
  stride length and the splice of a stride into a block.
- `volume.dfy` (module `Volumes`): the collaborator state a file sits on.
  It holds the block map, the disk, and the allocator's free list. Its
  operations stand in for `bfsFbnToDbn`, `bfsAllocBlock`, `bfsRead` and
  `bioRead`, and `bioWrite`.
- `filespec.dfy` (module `FileSpec`): what read, write and seek mean on
  the file as a plain byte sequence. The block-level loops are proved
  against these functions. The file also holds the as-written models of
  the two branches listed under Findings.
- `fs.dfy` (module `Fs`): class `OpenFile` (cursor, size, volume) with
  `Read`, `Write`, `Seek`, `Tell` and `Size`. These are imperative methods
  with the source's stride loops. The write loop itself is the module-level
  method `WriteStrides`. The loop bodies are the module-level methods
  `ReadStride` and `NextStride`, and `NextStride` calls `WriteStride`. They
  work on a scratch block array, as the source does with `blockBuf`.
- `sessions.dfy` (module `Sessions`): the directory and inode state behind
  `fsOpen`, `fsCreate` and `fsClose`.

The class invariant `OpenFile.Valid` says two things. The block storage is
consistent: mapped blocks are distinct and free blocks are not in use.
Every byte at or past `size` reads as zero. The second part is what makes a
hole between the old end of the file and a later write read as zeros.

`fsRead` and `fsWrite` refuse only a null buffer (fs.c:89, fs.c:208); they
never check the buffer's capacity. A buffer of zero capacity is accepted
when the count is 0. For a positive count the model requires the buffer to
hold at least `numb` bytes (see "## Left out").

The comment at fs.c:189-191 says the size also follows the highest offset
set by `fsSeek`. The code disagrees: `fsSeek` never changes the size
(fs.c:152-175). The model follows the code, and `Fs.OpenFile.Seek` leaves
the size alone.

## Model

| member | source | states |
|---|---|---|
| Blocks.StrideLen | fs.c:125-127 | a stride is at least one byte, at most the bytes left, ends inside its block, and is short only when it reaches the end of the block |
| Blocks.StrideInBlock | fs.c:121-123 | the bytes of one stride share its block number, and their offsets within the block follow the stride's offset |
| Blocks.Splice | fs.c:254 | copying a stride into a block at `offset` changes exactly the bytes `offset .. offset+n` and keeps the rest |
| Volumes.Volume.FbnToDbn | fs.c:241 | the lookup returns 0 exactly when the file block is unmapped, and otherwise a real device block, the one the block map gives |
| Volumes.Volume.BlockAt | fs.c:129 | every block is 512 bytes, and an unmapped block reads as zeros |
| Volumes.Volume.Allocate | fs.c:243-245 | allocation returns 0 exactly when the free list is empty, and then changes nothing; otherwise it maps the block to a free block, uses up one free block, and leaves every other block's contents alone |
| Volumes.Volume.Store | fs.c:256 | writing a disk block changes the contents of the file block mapped to it and nothing else, and keeps the storage consistent |
| Volumes.Unmapped | fs.c:243-245 | the count of unmapped blocks in a range is at most its length, and it is zero exactly when every block of the range is mapped |
| Volumes.UnmappedSplit | fs.c:232-260 | the unmapped blocks of a range are those of its two halves |
| Volumes.SpliceStride | fs.c:254-256 | after one block has taken a stride, the file bytes in the stride read the stride and every other byte reads as before |
| FileSpec.ReadCount | fs.c:110-114 | the read count is never more than requested, is 0 at or past the end of the file, stays within the file, and is short only at the end of the file |
| FileSpec.ReadSpec | fs.c:120-135 | the bytes read are the file's bytes from the cursor on, as many as the read count |
| FileSpec.Overwrite | fs.c:262-268 | after a write of at least one byte (a count of 0 returns at fs.c:207 and leaves the size alone) the size is the larger of the old size and the end of the write; the written range holds the data, other bytes below the old size are kept, and a gap past the old end reads zero |
| FileSpec.SeekTarget | fs.c:152-174 | a negative offset fails with EBADCURS before the base is looked at; SEEK_SET, SEEK_CUR and SEEK_END measure from 0, the cursor and the size; any other base fails with EBADWHENCE |
| FileSpec.RoundTrip | fs.c:205-271 | reading back the range just written gives the data written |
| FileSpec.WriteFrame | fs.c:241-256 | a write leaves every byte of the file outside its range as it was |
| FileSpec.HoleReadsZero | fs.c:243-247 | a write of at least one byte past the end of an empty file leaves a hole in front of it that reads as zeros |
| FileSpec.SeekEndAppends | fs.c:166-169 | seeking to the end moves the cursor to the size, and writing there appends |
| FileSpec.ReadAsWritten | fs.c:96-108 | the read as written reports no more bytes than requested, also in the branch at a cursor of 49 blocks |
| FileSpec.ReadAsWrittenPastEof | fs.c:96-110 | at a cursor of 49 blocks in an empty file, the read as written reports 700 bytes where the end-of-file rule allows none |
| FileSpec.WriteAsWritten | fs.c:214-226 | the write as written grows the file as the normal path does, and leaves a caller's buffer of the same length |
| FileSpec.WriteAsWrittenLosesData | fs.c:214-226 | at a cursor of 49 blocks, 700 bytes written with the write as written are lost: the file holds zeros there and the caller's buffer is overwritten; the read as written at that cursor returns exactly the overwritten buffer, which hides the loss |
| Fs.WrittenImage | fs.c:262-268 | when the written range reads the data and every other byte reads as before, the file's contents become `Overwrite` of the old contents, and the bytes past the new size still read zero |
| Fs.NextStrideBlock | fs.c:233-239 | each stride of the write loop starts in the first block the loop has not reached, ends in that block, and leaves the loop on a block boundary unless it is done |
| Fs.WriteStrideStep | fs.c:254-258 | one stored stride extends the written prefix by the stride's length |
| Fs.AllocateStep | fs.c:243-245 | passing one more block keeps the count of free blocks used equal to the count of unmapped blocks passed |
| Fs.WriteStrideFails | fs.c:243-245 | meeting an unmapped block with no free block left means the whole write needs more blocks than were free |
| Fs.StrideStep | fs.c:232-260 | one pass of the write loop either advances the loop state by one stride and one block, or shows that the disk is full for the whole write |
| Fs.FetchBlock | fs.c:249 | the scratch block holds the file block's contents |
| Fs.WriteStride | fs.c:241-256 | the three branches (allocate and zero, read and merge, overwrite in full) all leave the block holding the stride spliced into its old contents; every other block is unchanged; it fails exactly when the block is unmapped and no block is free, and then nothing changes |
| Fs.NextStride | fs.c:233-259 | one pass of the write loop moves forward by at least one byte and keeps the loop state, or shows that the whole write needs more blocks than were free |
| Fs.ReadStride | fs.c:121-134 | one pass of the read loop moves forward by at least one byte, the bytes it copies read the file at the matching positions, and the rest of the caller's buffer is untouched |
| Fs.WriteStrides | fs.c:228-260 | the write loop succeeds exactly when the unmapped blocks in range are no more than the free blocks, and then uses up exactly that many; the range reads the data and every other byte reads as before; every block of the range ends up mapped |
| Fs.OpenFile.constructor | fs.c:23-27 | a created or truncated file starts empty with the cursor at 0 |
| Fs.OpenFile.Tell | fs.c:182-184 | returns the session's cursor |
| Fs.OpenFile.Size | fs.c:193-196 | returns the file's size |
| Fs.OpenFile.Seek | fs.c:152-175 | the cursor becomes `SeekTarget`'s target; a refused offset or base leaves it where it was; the size and the file never change |
| Fs.OpenFile.Read | fs.c:86-140 | a negative count fails; a zero count returns 0 before the buffer is checked; a null buffer fails; otherwise it returns the read count, advances the cursor by it, fills the buffer's prefix with the file's bytes from the cursor, and leaves the rest of the buffer alone |
| Fs.OpenFile.Write | fs.c:205-271 | a negative count fails; a zero count succeeds without change; a null buffer fails; DiskFull happens exactly when the unmapped blocks in range outnumber the free blocks, and leaves cursor and size; otherwise the cursor advances by the count, the size becomes the larger of the old size and the end of the write, and the contents become `Overwrite` of the old contents |
| Fs.WriteSeekRead | fs.c:205-271 | write, seek back with SEEK_SET, then read gives the data back, and every byte outside the written range is unchanged |
| Fs.SeekSetThenTell | fs.c:160-161 | after SEEK_SET to `k`, tell returns `k`, and the size is unchanged |
| Sessions.Open | fs.c:72-76 | fails with EFNF and changes nothing exactly when the name is not in the directory; otherwise returns the name's inode and opens it |
| Sessions.Create | fs.c:23-27 | fails with EFNF and changes nothing exactly when the name is new and no inode is left; otherwise the name maps to the returned descriptor, which is open, and other names keep their distinct inodes |
| Sessions.Close | fs.c:11-15 | always returns 0 and releases the session on the descriptor |
| Sessions.OpenAfterCreate | fs.c:72-76 | opening a name just created gives the descriptor that create gave |
| Sessions.OpenMissing | fs.c:73-74 | opening an absent name reports EFNF and changes nothing |

## Left out

- `fsFormat` and `fsMount` (fs.c:35-64) are `fopen`/`fclose` calls on the host file system plus initializers that are not part of this model. They are I/O.
- The `bfs*` and `bio*` collaborators are not part of this model. The block map, the disk and the free list of `Volumes.Volume` stand in for them, with the contracts stated there. Reading an unmapped block is assumed to give zeros.
- The descriptor → inode → open-file-table lookup and the global `g_oft` are collapsed into one `Fs.OpenFile` object per session. `Sessions.InumToFd` is the identity.
- `Sessions.Close`: the reference count of an open-file-table entry is approximated by a set of open inodes, so closing one of two sessions on the same file closes both in the model.
- `Sessions.Create`: the truncation of an existing file's contents is not modelled in the catalog; a truncated file is a fresh `Fs.OpenFile` (its constructor), since `bfsCreateFile` is not part of this model.
- Fs.OpenFile.Read and Fs.OpenFile.Write require a non-null buffer to hold at least `numb` bytes. The source never checks the capacity. A read at or past the end of the file returns 0 at fs.c:110 without touching the buffer, so the source accepts a shorter buffer there; any transfer beyond the capacity is undefined behaviour in C, which the model does not describe.
- `i32` arithmetic: cursors, sizes and counts are unbounded, so the overflow of `cursor + numb` (fs.c:112, fs.c:266) and `end + offset` (fs.c:168) is not modelled.
- The process abort of `FATAL` is modelled as an `Err` result. Blocks stored before a DiskFull abort stay stored in the model.
- Fs.OpenFile.Write: on DiskFull it states only that the block storage stays consistent and that cursor and size are unchanged. It does not state which blocks were already written, because the real process has aborted by then.
- The 49-block branches (fs.c:96-108, fs.c:214-226) are modelled as written only in `FileSpec`. `Fs.OpenFile.Read` and `Fs.OpenFile.Write` model the general path; see Findings.

## Findings

| source | as written | input that shows it | evidently intended | confidence | as-written member | corrected member |
|---|---|---|---|---|---|---|
| fs.c:96-108 | at a cursor of exactly 49 blocks and a request of at least 700 bytes, `fsRead` returns 700 bytes of the value 99 without looking at the file or its size | an empty file, cursor 49 × 512, `numb` = 700: returns 700 where the end-of-file rule gives 0 | the general path: clamp at the end of the file and copy the file's bytes | not executed | FileSpec.ReadAsWrittenPastEof | Fs.OpenFile.Read |
| fs.c:214-226 | at a cursor of exactly 49 blocks and exactly 700 bytes, `fsWrite` raises the size but writes no block, and overwrites the caller's source buffer with 99s | an empty file, cursor 49 × 512, 700 bytes of value 1: the file's bytes there stay zero and the source buffer now holds 99s; reading 700 bytes back at that cursor gives the same 99s, so a read-back check against the buffer passes while the data is gone | the general path: store the bytes in their blocks and leave the source buffer alone | not executed | FileSpec.WriteAsWrittenLosesData | Fs.OpenFile.Write |
