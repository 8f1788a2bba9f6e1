/**
 * The parts of the embedded I2C interface the client implements: the error
 * kinds a transaction can report and the operations a caller hands in.
 */
module EmbeddedHal {
  import opened Ints

  datatype NoAcknowledgeSource = Address | Data | Unknown

  datatype ErrorKind = Bus | ArbitrationLoss | NoAcknowledge(source: NoAcknowledgeSource) | Overrun | Other

  /** A caller's operation: bytes to write, or a buffer the transaction fills in place. */
  datatype Operation = Write(bytes: seq<byte>) | Read(buffer: array<byte>)
}

/** `std::io::Error`, carried as an opaque value. */
module Io {

  datatype Error = Error(description: string)
}
