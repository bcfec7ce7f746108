/** `FBLongVarCharField`: the field adapter for `BLOB SUB_TYPE 1` (text BLOB) columns.
    A write either buffers the encoded bytes in the field (auto-commit) or writes a new
    BLOB at once and points the column's `sqldata` at it; `FlushCachedData` later writes
    a pending buffer exactly once. A read lazily opens a BLOB handle on the id found in the
    current row and drains it. */
module LongVarChar {
  import opened Types
  import opened Sqlvar
  import opened Streams
  import opened Blobs
  import FieldSpec

  /** The part of `FBResultSet` the field reads: the current row's raw slots. */
  class ResultSet {
    var row: seq<Option<Bytes>>

    constructor (row: seq<Option<Bytes>>)
      ensures this.row == row
    {
      this.row := row;
    }
  }

  /** `field.encodeString(value, javaEncoding)` applied to a nullable value. */
  function Encoded<T>(value: Option<T>, encode: T -> Bytes): (r: Option<Bytes>)
    ensures r.None? <==> value.None?
    ensures value.Some? ==> r == Some(encode(value.value))
  {
    match value
    case None => None
    case Some(v) => Some(encode(v))
  }

  /** What `getBytes` returns once it holds the stream source of a BLOB (or none):
      null for the null stream, every byte up to end-of-file, or a conversion error
      when the stream breaks, with none of the bytes read before it. */
  function Drain(src: Option<Source>): (r: Result<Option<Bytes>>)
    ensures src.None? ==> r == Ok(None)
    ensures src.Some? && !src.value.endsInError ==> r == Ok(Some(src.value.available))
    ensures src.Some? && src.value.endsInError ==> r == Fail(ConversionError)
  {
    match src
    case None => Ok(None)
    case Some(s) => if s.endsInError then Fail(ConversionError) else Ok(Some(s.available))
  }

  /** What `getString` makes of the result of `getBytes`. */
  function DecodeText(r: Result<Option<Bytes>>, decode: Bytes -> string): (t: Result<Option<string>>)
    ensures t == Ok(None) <==> r == Ok(None)
    ensures t.Fail? <==> r.Fail?
    ensures r.Fail? ==> t == Fail(r.error)
    ensures r.Ok? && r.value.Some? ==> t == Ok(Some(decode(r.value.value)))
  {
    match r
    case Fail(e) => Fail(e)
    case Ok(None) => Ok(None)
    case Ok(Some(b)) => Ok(Some(decode(b)))
  }

  /** The copy loop of `getBytes`: reads chunks of at most BUFF_SIZE bytes and appends
      them until end-of-file; an I/O error discards what was read. */
  method DrainStream(in': InputStream) returns (r: Result<Option<Bytes>>)
    requires in'.Valid()
    modifies in'
    ensures r == Drain(Some(old(in'.Remaining())))
  {
    ghost var start := in'.pos;
    var bout: Bytes := [];
    while true
      invariant in'.Valid() && start <= in'.pos
      invariant bout == in'.content[start..in'.pos]
      decreases |in'.content| - in'.pos
    {
      var chunk := in'.Read(FieldSpec.BUFF_SIZE);
      match chunk
      case Eof => break;
      case IoError => return Fail(ConversionError);
      case Chunk(bytes) => bout := bout + bytes;
    }
    assert bout == old(in'.Remaining()).available;
    r := Ok(Some(bout));
  }

  class LongVarCharField {
    const field: XSqlVar
    const rs: ResultSet
    const numCol: nat
    const c: Connection
    /** `field.encodeString(String, javaEncoding)` */
    const encodeString: string -> Bytes
    /** `field.encodeString(byte[], javaEncoding)` */
    const encodeBytes: Bytes -> Bytes
    /** `field.decodeString(byte[], javaEncoding)` */
    const decodeString: Bytes -> string

    var isCachedData: bool
    var blob: Blob?
    var length: int
    var data: Option<Bytes>

    /** The write-side state of the field and its collaborators. */
    function Written(): FieldSpec.WriteState
      reads this, field, c, c.server
    {
      FieldSpec.WriteState(isCachedData, data, length, field.sqldata,
                           c.autoCommit, c.inTransaction, c.server.State())
    }

    ghost predicate Valid()
      reads this, field, c, c.server
    {
      && FieldSpec.Valid(Written())
      && (blob != null ==> blob.conn == c)
    }

    /** The row has a slot for this column, and a non-null slot holds an 8-byte BLOB id. */
    predicate SlotWellFormed()
      reads rs
    {
      numCol < |rs.row| && (rs.row[numCol].Some? ==> |rs.row[numCol].value| == 8)
    }

    function Slot(): Option<Bytes>
      reads rs
      requires numCol < |rs.row|
    {
      rs.row[numCol]
    }

    /** The rule `getBlob` keeps for its cached handle: a cached handle stays; with none
        cached, a null slot leaves it null, and any other slot yields one new handle on
        the id the slot holds. The row is only looked at when no handle is cached. */
    twostate predicate LazyHandle()
      reads this, rs, blob
    {
      if old(blob) != null then blob == old(blob)
      else if !SlotWellFormed() then false
      else if Slot().None? then blob == null
      else blob != null && fresh(blob) && blob.conn == c && blob.blobId == DecodeLong(Slot().value)
    }

    /** What reading through the cached handle yields. */
    function Content(): Result<Option<Bytes>>
      reads this, blob, c, c.server
    {
      if blob == null then Ok(None) else Drain(Open(c.server.State(), blob.blobId))
    }

    constructor (field: XSqlVar, rs: ResultSet, numCol: nat, c: Connection,
                 encodeString: string -> Bytes, encodeBytes: Bytes -> Bytes,
                 decodeString: Bytes -> string)
      requires c.server.Valid()
      ensures Valid()
      ensures !isCachedData && blob == null && data == None && length == 0
      ensures this.field == field && this.rs == rs && this.numCol == numCol && this.c == c
      ensures this.encodeString == encodeString && this.encodeBytes == encodeBytes
      ensures this.decodeString == decodeString
    {
      this.field := field;
      this.rs := rs;
      this.numCol := numCol;
      this.c := c;
      this.encodeString := encodeString;
      this.encodeBytes := encodeBytes;
      this.decodeString := decodeString;
      isCachedData := false;
      blob := null;
      length := 0;
      data := None;
    }

    /** `close()`: forgets the handle whether or not closing it failed; the buffer and
        the pending flag stay as they are. */
    method Close() returns (ok: bool)
      requires Valid()
      modifies this`blob
      ensures Valid() && blob == null
      ensures ok == (old(blob) == null || c.server.reachable)
      ensures isCachedData == old(isCachedData) && data == old(data) && length == old(length)
    {
      ok := true;
      if blob != null {
        ok := blob.Close();
      }
      blob := null;
    }

    /** `getBlob()`: the cached handle, else null for a null slot, else a new cached
        handle on the slot's id. */
    method GetBlob() returns (b: Blob?)
      requires Valid() && (blob != null || SlotWellFormed())
      modifies this`blob
      ensures Valid() && LazyHandle() && b == blob
    {
      if blob != null {
        return blob;
      }
      if rs.row[numCol].None? {
        return null;
      }
      var blobId := DecodeLong(rs.row[numCol].value);
      blob := new Blob(c, blobId);
      b := blob;
    }

    /** `getBinaryStream()`: null for a null slot, else a fresh stream over the BLOB. */
    method GetBinaryStream() returns (s: InputStream?)
      requires Valid() && (blob != null || SlotWellFormed())
      modifies this`blob
      ensures Valid() && LazyHandle()
      ensures s != null ==> fresh(s) && s.Valid() && s.pos == 0
      ensures SourceOf(s) == (if blob == null then None else Open(c.server.State(), blob.blobId))
    {
      var b := GetBlob();
      if b == null {
        return null;
      }
      s := b.GetBinaryStream();
    }

    /** `getBytes()`: drains the BLOB in chunks of at most BUFF_SIZE bytes until
        end-of-file and returns everything read. */
    method GetBytes() returns (r: Result<Option<Bytes>>)
      requires Valid() && (blob != null || SlotWellFormed())
      modifies this`blob
      ensures Valid() && LazyHandle()
      ensures r == Content()
    {
      var b := GetBlob();
      if b == null {
        return Ok(None);
      }
      var in' := b.GetBinaryStream();
      if in' == null {
        return Ok(None);
      }
      r := DrainStream(in');
    }

    /** `getString()`: the decoded bytes, null exactly when `getBytes` gives null. */
    method GetString() returns (r: Result<Option<string>>)
      requires Valid() && (blob != null || SlotWellFormed())
      modifies this`blob
      ensures Valid() && LazyHandle()
      ensures r == DecodeText(Content(), decodeString)
    {
      var bytes := GetBytes();
      r := DecodeText(bytes, decodeString);
    }

    /** `getObject()`: the value as a string. */
    method GetObject() returns (r: Result<Option<string>>)
      requires Valid() && (blob != null || SlotWellFormed())
      modifies this`blob
      ensures Valid() && LazyHandle()
      ensures r == DecodeText(Content(), decodeString)
    {
      r := GetString();
    }

    /** `getCachedObject()`: null for a null slot, even when a handle is cached; else the bytes. */
    method GetCachedObject() returns (r: Result<Option<Bytes>>)
      requires Valid() && numCol < |rs.row| && (blob != null || SlotWellFormed())
      modifies this`blob
      ensures Valid() && LazyHandle()
      ensures Slot().None? ==> r == Ok(None) && blob == old(blob)
      ensures Slot().Some? ==> r == Content()
    {
      if rs.row[numCol].None? {
        return Ok(None);
      }
      r := GetBytes();
    }

    /** `setNull()` of the superclass: nulls the outgoing slot and nothing else. */
    method SetNull()
      requires Valid()
      modifies field
      ensures Valid() && Written() == FieldSpec.SetNull(old(Written()))
    {
      field.sqldata := None;
    }

    /** `copyBinaryStream(in, length)`: outside auto-commit ensure a transaction, write a
        new BLOB and store its encoded id in `sqldata`. */
    method CopyBinaryStream(in': InputStream, length: nat) returns (ok: bool)
      requires Valid() && in'.Valid() && CanSupply(in'.Remaining(), length)
      modifies field, c, c.server, in'
      ensures Valid() && in'.Valid()
      ensures var s := FieldSpec.CopyBinaryStream(old(Written()), old(in'.Remaining()), length);
        ok == s.ok && Written() == s.post && in'.pos == old(in'.pos) + s.consumed
    {
      var autoCommit := c.GetAutoCommit();
      if !autoCommit {
        c.EnsureInTransaction();
      }
      var b := new Blob(c, 0);
      ok := b.CopyStream(in', length);
      if ok {
        field.sqldata := Some(EncodeLong(b.blobId));
      }
    }

    /** `setBinaryStream(in, length)`. */
    method SetBinaryStream(in': InputStream?, length: nat) returns (ok: bool)
      requires Valid()
      requires in' != null ==> in'.Valid() && CanSupply(in'.Remaining(), length)
      modifies this, field, c, c.server, in'
      ensures Valid() && blob == old(blob)
      ensures in' != null ==> in'.Valid()
      ensures var s := FieldSpec.SetBinaryStream(old(Written()), old(SourceOf(in')), length);
        && ok == s.ok
        && Written() == s.post
        && (in' != null ==> in'.pos == old(in'.pos) + s.consumed)
    {
      if in' == null {
        SetNull();
        return true;
      }
      var autoCommit := c.GetAutoCommit();
      if !autoCommit {
        ok := CopyBinaryStream(in', length);
        return;
      }
      var bout: Bytes := [];
      var remaining: int := length;
      while remaining > 0
        invariant in'.Valid() && old(in'.pos) <= in'.pos
        invariant bout == in'.content[old(in'.pos)..in'.pos]
        invariant 0 <= remaining == length - |bout|
        modifies in'
        decreases remaining
      {
        var chunk := in'.Read(FieldSpec.RequestSize(remaining));
        assert !chunk.Eof?;
        if chunk.IoError? {
          return false;
        }
        bout := bout + chunk.bytes;
        remaining := remaining - |chunk.bytes|;
      }
      assert bout == old(in'.Remaining()).available[..length];
      data := Some(bout);
      this.length := |bout|;
      isCachedData := true;
      ok := true;
    }

    /** `setString(value)`. */
    method SetString(value: Option<string>) returns (ok: bool)
      requires Valid()
      modifies this, field, c, c.server
      ensures Valid() && blob == old(blob)
      ensures var s := FieldSpec.SetEncoded(old(Written()), Encoded(value, encodeString));
        ok == s.ok && Written() == s.post
    {
      if value.None? {
        SetNull();
        return true;
      }
      var bytes := encodeString(value.value);
      var in' := new InputStream(bytes, false);
      ok := SetBinaryStream(in', |bytes|);
    }

    /** `setBytes(value)`. */
    method SetBytes(value: Option<Bytes>) returns (ok: bool)
      requires Valid()
      modifies this, field, c, c.server
      ensures Valid() && blob == old(blob)
      ensures var s := FieldSpec.SetEncoded(old(Written()), Encoded(value, encodeBytes));
        ok == s.ok && Written() == s.post
    {
      if value.None? {
        SetNull();
        return true;
      }
      var bytes := encodeBytes(value.value);
      var in' := new InputStream(bytes, false);
      ok := SetBinaryStream(in', |bytes|);
    }

    /** `flushCachedData()`. */
    method FlushCachedData() returns (ok: bool)
      requires Valid()
      modifies this, field, c, c.server
      ensures Valid() && blob == old(blob)
      ensures var s := FieldSpec.Flush(old(Written())); ok == s.ok && Written() == s.post
    {
      if !isCachedData {
        return true;
      }
      var in' := new InputStream(data.value, false);
      ok := CopyBinaryStream(in', this.length);
      if ok {
        isCachedData := false;
      }
    }
  }
}
