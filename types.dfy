/** Value types shared by the whole model: bytes, Java's nullable references and
    the single failure outcome that stands for a thrown SQLException. */
module Types {

  /** One byte, as its unsigned value. */
  newtype byte = b: int | 0 <= b < 256

  /** A Java `byte[]` that is not null. */
  type Bytes = seq<byte>

  /** A nullable Java reference: `None` is `null` (every `*_NULL_VALUE` sentinel of the driver is `null`). */
  datatype Option<+T> = None | Some(value: T)

  /** Why a read threw: `getBytes` turns an IOException met while draining the BLOB
      stream into a conversion error. Operations that return nothing report a throw as
      `false` instead. */
  datatype SqlError = ConversionError

  /** The outcome of an operation that returns a value or throws. */
  datatype Result<+T> = Ok(value: T) | Fail(error: SqlError)
}
