/** The client's error type, its conversions from library errors and its I2C error kind. */
module PbError {
  import opened Messages
  import opened EmbeddedHal
  import Io
  import Prost

  datatype Error =
    | EncodeError(encode: Prost.EncodeError)
    | DecoderError(decode: Prost.DecodeError)
    | IoError(io: Io.Error)
    | UnexpectedEndOfStream
    | Timeout
    | Protocol(status: Status)
    | I2C(kind: ErrorKind)

  /** The I2C error kind a generic I2C caller sees: the carried kind for an
      I2C failure, `Other` for every failure outside the I2C domain. */
  function Kind(e: Error): (k: ErrorKind)
    ensures e.I2C? ==> k == e.kind
    ensures !e.I2C? ==> k == Other
  {
    if e.I2C? then e.kind else Other
  }

  /** `From<std::io::Error>`: the I/O error is kept, and is not an I2C failure. */
  function FromIoError(e: Io.Error): (r: Error)
    ensures r.IoError? && r.io == e
    ensures Kind(r) == Other
  {
    IoError(e)
  }

  /** `From<prost::EncodeError>`. */
  function FromEncodeError(e: Prost.EncodeError): (r: Error)
    ensures r.EncodeError? && r.encode == e
    ensures Kind(r) == Other
  {
    EncodeError(e)
  }

  /** `From<prost::DecodeError>`. */
  function FromDecodeError(e: Prost.DecodeError): (r: Error)
    ensures r.DecoderError? && r.decode == e
    ensures Kind(r) == Other
  {
    DecoderError(e)
  }

  /** `Kind` undoes the `I2C` constructor, and an error whose kind is not
      `Other` is exactly the I2C failure of that kind. */
  lemma KindInvertsI2c(k: ErrorKind, e: Error)
    ensures Kind(I2C(k)) == k
    ensures Kind(e) != Other ==> e == I2C(Kind(e))
  {
  }
}
