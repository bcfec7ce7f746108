/** The write side of `FBLongVarCharField` as a state machine on values: what a write,
    a null write and a flush do to the field's cache, to the column's `sqldata` slot, to
    the connection's transaction and to the server's BLOB store. The field's methods are
    proved to change their objects exactly as these functions say. */
module FieldSpec {
  import opened Types
  import opened Sqlvar
  import opened Streams
  import opened Blobs

  /** `BUFF_SIZE`: the largest chunk the buffering loop asks a stream for. */
  const BUFF_SIZE: nat := 4096

  /** Everything a write can observe or change. */
  datatype WriteState = WriteState(
    isCachedData: bool,      // the field holds bytes not yet written to a BLOB
    data: Option<Bytes>,     // the field's buffer (`data`, null until the first buffered write)
    length: int,             // the field's `length`
    sqldata: Option<Bytes>,  // the column's outgoing slot
    autoCommit: bool,
    inTransaction: bool,
    store: Store)

  /** `length` always describes `data`, and a pending cache always has a buffer. */
  predicate CacheValid(w: WriteState)
  {
    && (w.isCachedData ==> w.data.Some?)
    && w.length == (if w.data.Some? then |w.data.value| else 0)
  }

  predicate Valid(w: WriteState)
  {
    CacheValid(w) && StoreValid(w.store)
  }

  /** The outcome of one write-side operation: whether it returned normally, the state
      after it, and how many bytes it took from the caller's stream. */
  datatype Step = Step(ok: bool, post: WriteState, consumed: nat)

  /** The size asked of the stream while `remaining` bytes are still to come:
      `(length < BUFF_SIZE) ? length : BUFF_SIZE`. */
  function RequestSize(remaining: nat): (n: nat)
    requires remaining > 0
    ensures 0 < n <= BUFF_SIZE && n <= remaining
    ensures n == remaining || n == BUFF_SIZE
  {
    if remaining < BUFF_SIZE then remaining else BUFF_SIZE
  }

  /** `setNull()` of the superclass, reduced to its effect on the outgoing slot. */
  function SetNull(w: WriteState): (r: WriteState)
    ensures r.sqldata == None
    ensures r.(sqldata := w.sqldata) == w
  {
    w.(sqldata := None)
  }

  /** `copyBinaryStream(in, n)`: outside auto-commit make sure a transaction runs, then
      write the next `n` bytes to a new BLOB and point `sqldata` at its id. */
  function CopyBinaryStream(w: WriteState, src: Source, n: nat): (s: Step)
    requires CanSupply(src, n)
    ensures Valid(w) ==> Valid(s.post)
    ensures s.post.isCachedData == w.isCachedData && s.post.data == w.data && s.post.length == w.length
    ensures s.post.autoCommit == w.autoCommit
    ensures s.post.inTransaction == (w.inTransaction || !w.autoCommit)
    ensures !s.ok ==> s.post.sqldata == w.sqldata && s.post.store == w.store
    ensures s.consumed <= n
  {
    var w1 := if !w.autoCommit then w.(inTransaction := true) else w;
    var cp := CopyInto(w1.store, src, n);
    var slot := if cp.ok then Some(EncodeLong(w1.store.nextId)) else w1.sqldata;
    Step(cp.ok, w1.(store := cp.store, sqldata := slot), cp.consumed)
  }

  /** The auto-commit branch of `setBinaryStream`: read `n` bytes into the field's own
      buffer and mark it pending. An I/O error leaves the field as it was. */
  function Buffer(w: WriteState, src: Source, n: nat): (s: Step)
    requires CanSupply(src, n)
    ensures Valid(w) ==> Valid(s.post)
    ensures s.post.(isCachedData := w.isCachedData, data := w.data, length := w.length) == w
    ensures s.ok <==> n <= |src.available|
    ensures s.ok ==> s.post.isCachedData && s.post.data == Some(src.available[..n])
    ensures !s.ok ==> s.post == w
    ensures s.consumed <= n
  {
    if |src.available| < n then Step(false, w, |src.available|)
    else Step(true, w.(isCachedData := true, data := Some(src.available[..n]), length := n), n)
  }

  /** `setBinaryStream(in, n)`: a null stream only nulls the slot; otherwise the
      connection's auto-commit flag chooses between buffering and writing a BLOB now. */
  function SetBinaryStream(w: WriteState, src: Option<Source>, n: nat): (s: Step)
    requires src.Some? ==> CanSupply(src.value, n)
    ensures Valid(w) ==> Valid(s.post)
    ensures s.consumed <= n
  {
    if src.None? then Step(true, SetNull(w), 0)
    else if !w.autoCommit then CopyBinaryStream(w, src.value, n)
    else Buffer(w, src.value, n)
  }

  /** `setString` and `setBytes` after encoding: a null value nulls the slot; any other
      value is written as a stream over its encoded bytes. */
  function SetEncoded(w: WriteState, encoded: Option<Bytes>): (s: Step)
    ensures Valid(w) ==> Valid(s.post)
  {
    match encoded
    case None => Step(true, SetNull(w), 0)
    case Some(b) => SetBinaryStream(w, Some(Source(b, false)), |b|)
  }

  /** `flushCachedData()`: nothing unless data is pending; otherwise write the buffer to a
      new BLOB and, only if that returned, clear the pending flag. */
  function Flush(w: WriteState): (s: Step)
    requires CacheValid(w)
    ensures Valid(w) ==> Valid(s.post)
    ensures s.post.isCachedData == (w.isCachedData && !s.ok)
    ensures s.post.data == w.data && s.post.length == w.length
  {
    if !w.isCachedData then Step(true, w, 0)
    else
      var s := CopyBinaryStream(w, Source(w.data.value, false), w.length);
      if s.ok then s.(post := s.post.(isCachedData := false)) else s
  }
}
