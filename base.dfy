/**
 * Shared vocabulary of the storage model: optional values, results with the
 * errors the storage layer raises, the integer widths of the SQL columns, and
 * the opaque scalar types (identities, timestamps, byte blobs).
 */
module Base {

  /** A 128-bit uniqueidentifier; only equality matters, so its width is not modelled. */
  type Guid = nat

  /** A datetime2 / datetimeoffset value; only equality is used. */
  type Timestamp = int

  newtype Byte = x: int | 0 <= x < 256

  /** A varbinary(max) value. */
  type Bytes = seq<Byte>

  /** SQL `int` (C# `int`). */
  type Int32 = x: int | -0x8000_0000 <= x < 0x8000_0000

  /** SQL `bigint` (C# `long`). */
  type Int64 = x: int | -0x8000_0000_0000_0000 <= x < 0x8000_0000_0000_0000

  /** A nullable value: `None` stands for SQL NULL or a C# null reference. */
  datatype Option<+T> = None | Some(value: T)

  /** The failures the modelled code raises, one per kind of exception. */
  datatype Error =
    | PrimaryKeyViolation      // SqlException: "Violation of PRIMARY KEY constraint"
    | ArgumentNull             // Guard.AgainstNull
    | ArgumentEmpty            // Guard.AgainstEmpty
    | KeyNotFound              // Dictionary indexer on a missing key
    | NullReference            // foreach over a null sequence
    | SyntaxError              // malformed generated SQL, e.g. `IN ()`
    | AmbiguousColumn          // SQL Server error 209
    | ObjectAlreadyExists      // SQL Server error 2714 (SELECT INTO an existing table)
    | InvalidObjectName        // SQL Server error 208 (missing table)
    | EnvelopeDecodeFailure    // InvalidOperationException wrapping a JSON failure or a null result
    | InvalidColumnName        // SQL Server error 1911 (index on a missing column)
    | SchemaLockNotAcquired    // THROW 50000 after sp_getapplock timed out
    | TransientFailure         // lost connection, command timeout, ...
    | TransactionNotSet        // InvalidOperationException: command outside the connection's pending transaction

  datatype Result<+T> = Ok(value: T) | Err(error: Error)

  /** The result of an operation that returns nothing (a C# `Task`). */
  datatype Outcome = Done | Failed(error: Error)
}
