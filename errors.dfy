/** Error codes raised at the boundary of the byte-stream layer, and the
    result type that replaces the source's fatal aborts and sentinels. */
module Errors {

  /** One constructor per error code of fs.c. All but FileNotFound abort the
      process in the source (FATAL); FileNotFound is the EFNF sentinel that
      open and create return to their caller. */
  datatype Error =
    | NegativeLength   // ENEGNUMB: a negative byte count
    | NullBuffer       // ENULLPTR: no caller buffer
    | BadCursor        // EBADCURS: a negative seek offset
    | BadWhence        // EBADWHENCE: a seek base other than SEEK_SET, SEEK_CUR, SEEK_END
    | DiskFull         // EDISKFULL: the block allocator has no free block
    | FileNotFound     // EFNF: name lookup or inode creation failed

  datatype Result<T> = Ok(value: T) | Err(error: Error)
}
