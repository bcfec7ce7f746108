# Text-BLOB field of the Firebird JDBC driver, modelled in Dafny

This project models `FBLongVarCharField`, the field adapter that the Jaybird JDBC driver
uses for `BLOB SUB_TYPE 1` (text BLOB) columns, and proves what it does with a value
written to or read from such a column.

* **Write path.** `setString` and `setBytes` encode the value; all three of `setString`,
  `setBytes` and `setBinaryStream` then look at the connection's auto-commit flag. With auto-commit on, the bytes are copied
  into the field's own buffer in chunks of at most `BUFF_SIZE` = 4096 bytes and the field
  is marked as holding pending data (`isCachedData`). With auto-commit off, a transaction
  is ensured, a new BLOB is written at once and the column's outgoing slot (`sqldata`)
  receives the new BLOB's id. A null value only calls `setNull`.
* **Flush.** `flushCachedData` writes pending data to one new BLOB and only then clears
  the pending flag.
* **Read path.** `getBlob` opens a BLOB handle on the id found in the current row and
  caches it; `getBytes` drains the handle's stream in 4096-byte chunks; `getString` and
  `getObject` decode those bytes; `close` forgets the handle.

Files:

| file | module | what it holds |
|---|---|---|
| `types.dfy` | `Types` | bytes, nullable values (`Option`), the single failure outcome (`Result`) |
| `sqlvar.dfy` | `Sqlvar` | the column's `sqldata` slot and the 8-byte BLOB id codec, with its round trip |
| `streams.dfy` | `Streams` | input streams that return short reads and may end in an I/O error |
| `blobs.dfy` | `Blobs` | the server's BLOB store, the connection, and `FBBlob` handles |
| `field_spec.dfy` | `FieldSpec` | the write side of the field as functions on a state value |
| `long_var_char_field.dfy` | `LongVarChar` | the field class itself, proved against `FieldSpec` |
| `field_properties.dfy` | `FieldProperties` | lemmas about writes, flushes and null writes |

The field is a class whose methods update `isCachedData`, `data`, `length`, `blob` and
the column's `sqldata` in place. Every write-side method ensures that the new state of the
field, connection and server equals a `FieldSpec` function of the old state. The lemmas in
`FieldProperties` then prove the properties that span several calls: flush once, buffer
then flush, null after a buffered write. The read-side methods state their results
directly. The twostate predicate `LazyHandle` gives the caching rule that
`getBlob`, `getBytes`, `getString`, `getObject` and `getCachedObject` all keep.

Collaborators are modelled as follows:

* The connection has `autoCommit` and `inTransaction` flags.
* The server is a map from BLOB id to contents. It hands out ids 1, 2, ... and has a
  `reachable` flag. When the flag is false, BLOB writes and `FBBlob.close` fail, and a BLOB
  stream fails at its first read.
* A stream is a byte sequence plus a read position. Each `read(n)` returns between 1 and
  `n` bytes. At the end it returns end-of-file, or an I/O error for a stream that breaks,
  which is how an interrupted or cancelled read is represented.
* Charset encoding and decoding are arbitrary functions given to the field.

A few points where the code does something a reader might not expect of a deferred BLOB
write. The model follows the code:

* A null write does not discard a pending buffer. The null paths only call `setNull`, so
  the next `flushCachedData` still writes the stale buffer and replaces the null slot with
  the new BLOB's id (`FieldProperties.NullAfterBufferedWriteIsFlushed`).
* `close` forgets the BLOB handle but leaves `data`, `length` and `isCachedData` alone.
* There is no read shortcut for unflushed data. `getBytes` always goes through `getBlob`
  and the id in the current row.
* A write puts the new BLOB id in `sqldata`, but a read decodes the row slot
  `rs.row[numCol]`, which is a separate slot. So nothing here claims that reading the
  field after writing it returns the written bytes. The lemmas only show that the id
  placed in `sqldata` names a BLOB that holds exactly those bytes.

## Model

| member | source | states |
|---|---|---|
| `LongVarChar.LongVarCharField.constructor` | src/main/org/firebirdsql/jdbc/FBLongVarCharField.java:44-54 | a new field has nothing pending, no handle, no buffer and `length` 0 |
| `LongVarChar.LongVarCharField.Close` | src/main/org/firebirdsql/jdbc/FBLongVarCharField.java:56-69 | afterwards the handle is null whether or not closing it failed; it fails only when a handle existed and could not be closed; with no handle nothing is called, so a repeated close changes nothing; buffer, length and pending flag are never touched |
| `LongVarChar.LongVarCharField.GetBlob` | src/main/org/firebirdsql/jdbc/FBLongVarCharField.java:71-98 | returns the cached handle unchanged when there is one; for a null row slot returns null and caches nothing; otherwise returns and caches one fresh handle on the id the slot decodes to |
| `LongVarChar.LongVarCharField.GetBinaryStream` | src/main/org/firebirdsql/jdbc/FBLongVarCharField.java:100-107 | null for a null slot; otherwise a fresh stream at position 0 over the cached BLOB's contents (null when the server has no such BLOB) |
| `LongVarChar.LongVarCharField.GetBytes` | src/main/org/firebirdsql/jdbc/FBLongVarCharField.java:109-148 | null for a null slot or a null stream; otherwise the BLOB's full contents, or a conversion error when the stream breaks, keeping the lazy-handle rule |
| `LongVarChar.DrainStream` | src/main/org/firebirdsql/jdbc/FBLongVarCharField.java:121-147 | the chunked copy loop returns every remaining byte of the stream up to end-of-file, in order, or a conversion error with no bytes when the stream ends in an I/O error |
| `LongVarChar.Drain` | src/main/org/firebirdsql/jdbc/FBLongVarCharField.java:113-147 | what `getBytes` yields for a stream: null for the null stream, all its bytes at end-of-file, a conversion error when it breaks |
| `LongVarChar.LongVarCharField.GetString` | src/main/org/firebirdsql/jdbc/FBLongVarCharField.java:161-168 | the decoded bytes; null exactly when `getBytes` gives null; fails exactly when `getBytes` fails |
| `LongVarChar.DecodeText` | src/main/org/firebirdsql/jdbc/FBLongVarCharField.java:162-167 | null in exactly when null out, failure in exactly when failure out, otherwise the decoding of the bytes |
| `LongVarChar.LongVarCharField.GetObject` | src/main/org/firebirdsql/jdbc/FBLongVarCharField.java:150-152 | the same value as `getString` |
| `LongVarChar.LongVarCharField.GetCachedObject` | src/main/org/firebirdsql/jdbc/FBLongVarCharField.java:154-159 | null for a null row slot even when a handle is cached, leaving the handle as it was; otherwise what `getBytes` returns |
| `LongVarChar.LongVarCharField.SetNull` | src/main/org/firebirdsql/jdbc/FBLongVarCharField.java:172-175 | the outgoing slot becomes null and nothing else of the field, connection or server changes |
| `LongVarChar.Encoded` | src/main/org/firebirdsql/jdbc/FBLongVarCharField.java:177-188 | a null value stays null and is not encoded; any other value becomes its encoding |
| `LongVarChar.LongVarCharField.SetString` | src/main/org/firebirdsql/jdbc/FBLongVarCharField.java:170-179 | the new state is `FieldSpec.SetEncoded` of the old state and the encoded string (null only nulls the slot) |
| `LongVarChar.LongVarCharField.SetBytes` | src/main/org/firebirdsql/jdbc/FBLongVarCharField.java:181-190 | the new state is `FieldSpec.SetEncoded` of the old state and the encoded bytes (null only nulls the slot) |
| `LongVarChar.LongVarCharField.CopyBinaryStream` | src/main/org/firebirdsql/jdbc/FBLongVarCharField.java:192-201 | the new state and stream position are `FieldSpec.CopyBinaryStream` of the old ones; the field's cache is untouched |
| `LongVarChar.LongVarCharField.SetBinaryStream` | src/main/org/firebirdsql/jdbc/FBLongVarCharField.java:203-233 | the new state and stream position are `FieldSpec.SetBinaryStream` of the old ones; the buffering loop asks for `RequestSize(remaining)` bytes per read and stops after exactly `length` bytes; the handle is untouched |
| `LongVarChar.LongVarCharField.FlushCachedData` | src/main/org/firebirdsql/jdbc/FBLongVarCharField.java:235-241 | the new state is `FieldSpec.Flush` of the old state; the handle is untouched |
| `FieldSpec.RequestSize` | src/main/org/firebirdsql/jdbc/FBLongVarCharField.java:218-221 | each read asks for between 1 and 4096 bytes and never more than remain; all that remain when fewer than 4096 do |
| `FieldSpec.SetNull` | src/main/org/firebirdsql/jdbc/FBLongVarCharField.java:172-175 | only the outgoing slot changes, to null |
| `FieldSpec.CopyBinaryStream` | src/main/org/firebirdsql/jdbc/FBLongVarCharField.java:192-201 | keeps the state valid; outside auto-commit a transaction is running afterwards; buffer, length and pending flag are unchanged; a failure leaves store and slot unchanged; no more than the requested bytes are read |
| `FieldSpec.Buffer` | src/main/org/firebirdsql/jdbc/FBLongVarCharField.java:212-232 | succeeds exactly when the stream has the bytes; then the buffer is exactly the next `length` bytes and data is pending; nothing but the cache changes; a failure changes nothing |
| `FieldSpec.SetBinaryStream` | src/main/org/firebirdsql/jdbc/FBLongVarCharField.java:203-233 | keeps the state valid (length describes the buffer, ids stay fresh) and never consumes more than `length` bytes |
| `FieldSpec.SetEncoded` | src/main/org/firebirdsql/jdbc/FBLongVarCharField.java:170-190 | keeps the state valid |
| `FieldSpec.Flush` | src/main/org/firebirdsql/jdbc/FBLongVarCharField.java:235-241 | keeps the state valid; data stays pending exactly when it was pending and the write failed; buffer and length are kept |
| `FieldProperties.BufferedWrite` | src/main/org/firebirdsql/jdbc/FBLongVarCharField.java:212-232 | with auto-commit on and enough bytes: the buffer is exactly the first `length` bytes, `length` is its size, data is pending, exactly `length` bytes are read, no BLOB is created and `sqldata` and the transaction are unchanged |
| `FieldProperties.ImmediateWrite` | src/main/org/firebirdsql/jdbc/FBLongVarCharField.java:192-211 | with auto-commit off: a transaction is running afterwards and the cache is untouched; success exactly when the server can create a BLOB and the bytes arrive; then exactly one BLOB under a previously unused id holds those bytes and `sqldata` decodes to that id; a failure changes neither store nor slot |
| `FieldProperties.FlushOnce` | src/main/org/firebirdsql/jdbc/FBLongVarCharField.java:235-241 | no pending data: nothing happens; pending data: one new BLOB holds the whole buffer, `sqldata` decodes to its id, the flag is cleared, and a second flush does nothing; a failed flush keeps the data pending and changes neither store nor slot |
| `FieldProperties.NullWritesOnlyNullTheSlot` | src/main/org/firebirdsql/jdbc/FBLongVarCharField.java:170-208 | a null string, byte array or stream nulls the slot and changes nothing else: no buffering, no BLOB, no transaction, nothing read |
| `FieldProperties.BufferedWriteThenFlush` | src/main/org/firebirdsql/jdbc/FBLongVarCharField.java:181-241 | under auto-commit, writing a value and flushing leaves exactly its encoded bytes in the BLOB whose id `sqldata` decodes to, and a read through a handle on that id returns them |
| `FieldProperties.ImmediateWriteStoresBytes` | src/main/org/firebirdsql/jdbc/FBLongVarCharField.java:181-201 | outside auto-commit, writing a value leaves exactly its encoded bytes in the BLOB whose id `sqldata` decodes to, and a read through a handle on that id returns them |
| `FieldProperties.NullAfterBufferedWriteIsFlushed` | src/main/org/firebirdsql/jdbc/FBLongVarCharField.java:183-241 | a null write after a buffered write leaves the data pending, and the next flush writes it and replaces the null slot |
| `FieldProperties.ReadThroughHandle` | src/main/org/firebirdsql/jdbc/FBLongVarCharField.java:111-147 | a read through a handle on an id gives null when the BLOB does not exist, its full contents when the server answers, a conversion error otherwise |
| `Sqlvar.EncodeLong` | src/main/org/firebirdsql/jdbc/FBLongVarCharField.java:200 | a BLOB id is written to the slot as 8 bytes |
| `Sqlvar.DecodeLong` | src/main/org/firebirdsql/jdbc/FBLongVarCharField.java:88 | 8 slot bytes decode to a Java long |
| `Sqlvar.LongRoundTrip` | src/main/org/firebirdsql/jdbc/FBLongVarCharField.java:200 | decoding the slot written for an id gives that id back, for every Java long |
| `Sqlvar.EncodeLongInjective` | src/main/org/firebirdsql/jdbc/FBLongVarCharField.java:200 | different ids never produce the same slot value |
| `Blobs.CopyInto` | src/main/org/firebirdsql/jdbc/FBLongVarCharField.java:198-199 | keeps ids fresh; succeeds exactly when the server can create a BLOB and the bytes arrive; then the new BLOB under the next id holds exactly the requested bytes; a failure leaves the store unchanged |
| `Blobs.CopyIntoAddsOneBlob` | src/main/org/firebirdsql/jdbc/FBLongVarCharField.java:198-199 | a successful copy adds exactly one BLOB, under a nonzero id that was not in use |
| `Blobs.Open` | src/main/org/firebirdsql/jdbc/FBLongVarCharField.java:116-119 | no stream for an unknown id; the BLOB's contents up to end-of-file when the server answers; an immediate I/O error otherwise |
| `Blobs.Blob.constructor` | src/main/org/firebirdsql/jdbc/FBLongVarCharField.java:198 | a new handle on the given connection with the given id: id 0 (ask for a new BLOB) here, the id decoded from the row at line 96 |
| `Streams.InputStream.constructor` | src/main/org/firebirdsql/jdbc/FBLongVarCharField.java:178 | `new ByteArrayInputStream(data)` (also lines 189 and 238): a stream at position 0 over exactly the given bytes that ends in end-of-file |
| `Blobs.Blob.CopyStream` | src/main/org/firebirdsql/jdbc/FBLongVarCharField.java:198-200 | the store and stream position after it are those of `CopyInto`; on success the handle's id is the new BLOB's id |
| `Blobs.Blob.GetBinaryStream` | src/main/org/firebirdsql/jdbc/FBLongVarCharField.java:116 | a fresh stream at position 0 over what `Open` gives for the handle's id, or null when there is none |
| `Blobs.Blob.Close` | src/main/org/firebirdsql/jdbc/FBLongVarCharField.java:59 | closing fails exactly when the server does not answer |
| `Blobs.Server.Create` | src/main/org/firebirdsql/jdbc/FBLongVarCharField.java:199 | stores the contents under an id not in use, and ids stay fresh |
| `Blobs.Connection.GetAutoCommit` | src/main/org/firebirdsql/jdbc/FBLongVarCharField.java:195 | returns the connection's auto-commit flag |
| `Blobs.Connection.EnsureInTransaction` | src/main/org/firebirdsql/jdbc/FBLongVarCharField.java:196 | a transaction is running afterwards and the auto-commit flag is unchanged |
| `Streams.InputStream.Read` | src/main/org/firebirdsql/jdbc/FBLongVarCharField.java:219 | returns between 1 and `n` of the next bytes and advances past them; at the end returns end-of-file, or an I/O error for a broken stream, and does not move |

## Left out

- The rest of the driver: `FBObjectListener` and the statement, result-set and fetcher classes that close and complete one another. The listener file only declares interfaces and no-op listeners, and the cascade lives in classes that are not part of this model.
- `setNull` belongs to the superclass `FBStringField`/`FBField`, which is not part of this model. It is modelled as nulling the outgoing slot `sqldata` and nothing else.
- `FBBlob`'s own code is not part of this model. `copyStream` is modelled as atomic: a failed copy leaves no BLOB behind, so partly written BLOBs are not modelled. Ids are handed out in order, and running out of Java long ids counts as a failed write. The model's server does not require a transaction before it creates a BLOB.
- `FBBlob.getBinaryStream` returning null is modelled for an id that the store does not hold. That is the only way the model reaches the null-stream branch of `getBytes`.
- `ensureInTransaction` never fails in the model, and `getAutoCommit` is a plain read.
- `XSQLVAR.encodeLong`/`decodeLong` are not part of this model. The model uses 8-byte big-endian two's complement; only its round trip is relied on.
- When no BLOB handle is cached, a non-null row slot that does not hold 8 bytes is excluded by the precondition `SlotWellFormed`, and so is a column index outside the row; in Java both throw unchecked exceptions. With a handle cached the read methods do not look at the row and require nothing of it; `getCachedObject` always reads the slot and so always requires the column index to be inside the row.
- Charsets: `encodeString` and `decodeString` are arbitrary functions that the field is given. Decoding cannot fail in the model.
- Exceptions: `getBytes`, `getString`, `getObject` and `getCachedObject` report a throw as a conversion error; `close` and the write methods report it as `false`. Messages and the wrapping of `IOException` into `SQLException` are not modelled.
- Failures in the `finally` block of `getBytes`, when closing the input stream or the byte buffer, are not modelled.
- `LongVarChar.LongVarCharField.SetBinaryStream`: a stream that reaches end-of-file before `length` bytes is excluded by the precondition `CanSupply` on both branches. With auto-commit on, Java's buffering loop then passes -1 to `bout.write` (line 220) and throws an unchecked exception. With auto-commit off, the short stream goes to `FBBlob.copyStream` (line 199), whose handling of it is not part of this model.
- `LongVarChar.LongVarCharField.SetBinaryStream`: a negative `length` is excluded by its type `nat` on both branches. With auto-commit on, Java's `new ByteArrayOutputStream(length)` throws (line 214). With auto-commit off, the length goes through `copyBinaryStream` to `FBBlob.copyStream` (lines 210-211 and 199), which is not part of this model.
- `LongVarChar.LongVarCharField.CopyBinaryStream`: a stream that reaches end-of-file before `length` bytes is excluded by the precondition `CanSupply`, and a negative `length` by its type `nat`. Both reach `FBBlob.copyStream` at line 199, whose handling of them is not part of this model.
- Java's 32-bit `int` for lengths and chunk counts is modelled as an unbounded integer. Overflow is not modelled.
- Concurrency and cancellation: a cancelled read is modelled as a stream that ends in an I/O error. Thread interleavings are not modelled.
