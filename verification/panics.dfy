/**
 Every way the KLV decoder can abort. The source panics in each case but
 `BadLengthPrefix`, which only the corrected length reader returns; the
 model returns the panic as a value so that the inputs it rejects are
 visible in the contracts.
 */
module Panics {

  /** The field whose reader returned `None` inside `read_next`. */
  datatype Field = KeyField | LengthField | ValueField

  datatype Failure =
      /** `expect("Unable to parse key/length/value")` in `read_next`. */
    | Unparsed(field: Field)
      /** Slicing `input[start..end]` with `end` past the buffer's length `len`. */
    | SliceOutOfRange(start: nat, end: nat, len: nat)
      /** `u8s_to_u32` called with a slice whose size is not 2, 3 or 4. */
    | SizeNotTwoToFour(size: nat)
      /** A fixed-width little-endian helper called with fewer bytes than it needs. */
    | TooFewBytes(needed: nat, size: nat)
      /** Corrected length decoder only: a long-form prefix whose octet count is not in 1..8. */
    | BadLengthPrefix(prefix: int)
}
