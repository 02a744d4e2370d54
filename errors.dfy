/** Failure values of the decode pipeline.

    The source has two kinds of failure: the three `?` sites in `Reader::from_file` return an
    `io::Error` to the caller, while every `unwrap`, `expect`, `assert_eq!`, out-of-range index,
    arithmetic overflow and the final `panic!` aborts the thread.  Both kinds are values here;
    `IsPanic` says which kind the source would produce.  Of the `?` sites, `File::open` is not
    modelled (opening never fails here); the two header reads are. */
module Errors {

  datatype Error =
    | UnexpectedEof               // `read_exact` ran out of bytes; returned through `?`
    | InvalidJson                 // `expect("Invalid JSON")` on the metadata block
    | IndexOutOfBounds            // `data_offsets[0]` or `data_offsets[1]` on a too-short vector
    | SubtractOverflow            // `end - start` with `start > end`
    | AddOverflow                 // `end - start + 1` past the largest `usize`
    | InvalidAlignment            // `assert_eq!(.. % 2, 0, "Invalid alignment.")`
    | UnwrapEof                   // `.unwrap()` of a tensor read that ran out of bytes
    | InvalidSeek                 // `seek` to an offset of 2^63 or more (it becomes a negative `i64`)
    | UnwrapSeek                  // `.unwrap()` of such a failed `seek`
    | UnsupportedDtype(dtype: string)  // `panic!("The dtype {} is currently unsupported.")`
  {
    /** Whether the source aborts with a panic rather than returning `Err`. */
    predicate IsPanic() {
      !UnexpectedEof? && !InvalidSeek?
    }
  }

  datatype Result<+T> = Ok(value: T) | Err(error: Error)

  datatype Option<+T> = None | Some(value: T)
}
