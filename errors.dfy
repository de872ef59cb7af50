/**
 * The errors the instruction codec raises. All of them are thrown synchronously
 * in the source, before anything is appended to the caller's instruction list.
 */
module Errors {

  datatype Error =
    /** FixedLengthUTF8.encode: the UTF-8 bytes of the text are longer than the field. */
    | TextTooLong
    /** A layout would write past the end of the buffer ("encoding overruns Buffer"). */
    | Overrun
    /** U64.encode: a negative value. */
    | NegativeValue
    /** A 64-bit field whose value does not fit in 8 bytes (BN's toBuffer refuses it). */
    | Overflow
    /** A u8 or i32 field whose value is outside its range (Node's writeUInt8 / writeInt32LE). */
    | OutOfRange
    /** CreateProposalAccountArgs: more than five vote labels. */
    | TooManyLabels
    /** A property whose value is not of the kind its layout encodes (a string for a `u8`, say). */
    | WrongType
}
