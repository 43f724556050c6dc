/**
 * The frame layout shared by the reader and the packers: field widths,
 * fixed offsets, the error values and the header flags.
 */
module Wire {
  import opened Bytes

  /** Field widths, from the Go types written into each field. */
  const SizeBytes: nat := 4    // int32 / uint32 length prefix
  const HeaderBytes: nat := 1  // uint8 flags
  const RouteBytes: nat := 1   // int8 route code
  const SeqBytes: nat := 8     // uint64 sequence
  const UidBytes: nat := 8     // int64 user id
  const CodeBytes: nat := 2    // int16 status code

  /** Offsets of the fields every data frame begins with. */
  const HeaderOffset: nat := SizeBytes
  const RouteOffset: nat := SizeBytes + HeaderBytes
  const SeqOffset: nat := SizeBytes + HeaderBytes + RouteBytes

  /** Total lengths of the two Unbind frames. */
  const UnbindReqBytes: nat := SizeBytes + HeaderBytes + RouteBytes + SeqBytes + UidBytes
  const UnbindResBytes: nat := SizeBytes + HeaderBytes + RouteBytes + SeqBytes + CodeBytes

  /**
   * ErrInvalidMessage is the package's malformed-frame error; ErrEOF and
   * ErrUnexpectedEOF are what `io.ReadFull` reports when the stream ends
   * before, or part way through, a read; ErrWrite is whatever error the
   * byte sink behind a pooled buffer reports.
   */
  datatype Error = ErrInvalidMessage | ErrEOF | ErrUnexpectedEOF | ErrWrite

  datatype Option<T> = None | Some(value: T)

  datatype Result<T> = Ok(value: T) | Err(error: Error)

  /**
   * The header flags and route codes of the package. Their values are
   * declared outside the two files modelled here, so everything below is
   * stated for any choice of them.
   */
  datatype Codes = Codes(dataBit: uint8, heartbeatBit: uint8, unbindReq: int8, unbindRes: int8)

  /** `header & flag == flag`: every bit of flag is set in header. */
  predicate HasFlag(header: byte, flag: uint8)
  {
    (header as bv8) & (flag as bv8) == flag as bv8
  }
}
