/** The remote side of a text BLOB: the server's BLOB store, the connection that owns the
    transaction, and `FBBlob`, the handle through which the field writes and reads one BLOB.
    FBBlob's own code is not part of this model; its handles are modelled on an in-memory
    store of BLOB contents keyed by id. */
module Blobs {
  import opened Types
  import opened Sqlvar
  import opened Streams

  /** The server's BLOBs by id, the next id it will hand out, and whether the transport
      currently answers. Id 0 asks for a new BLOB and is never a stored BLOB's id. */
  datatype Store = Store(blobs: map<int, Bytes>, nextId: int, reachable: bool)

  predicate StoreValid(st: Store)
  {
    && 0 < st.nextId <= MaxLong + 1
    && forall id :: id in st.blobs ==> 0 < id < st.nextId
  }

  /** The server can create another BLOB: it answers, and a fresh Java long id is left. */
  predicate CanCreate(st: Store)
  {
    st.reachable && 0 < st.nextId <= MaxLong
  }

  /** The effect of one `copyStream` into a new BLOB: whether it succeeded, the store
      after it, and how many bytes it took from the source. On success the new BLOB's
      id is the old `nextId`. */
  datatype Copy = Copy(ok: bool, store: Store, consumed: nat)

  /** `new FBBlob(c, 0).copyStream(in, n)`: a new BLOB holding the next `n` bytes of the source. */
  function CopyInto(st: Store, src: Source, n: nat): (cp: Copy)
    requires CanSupply(src, n)
    ensures StoreValid(st) ==> StoreValid(cp.store)
    ensures cp.ok <==> CanCreate(st) && n <= |src.available|
    ensures cp.consumed <= n && cp.store.reachable == st.reachable
    ensures !cp.ok ==> cp.store == st
    ensures cp.ok ==> cp.store.blobs == st.blobs[st.nextId := src.available[..n]] && cp.consumed == n
  {
    if !CanCreate(st) then Copy(false, st, 0)
    else if |src.available| < n then Copy(false, st, |src.available|)
    else Copy(true, st.(blobs := st.blobs[st.nextId := src.available[..n]], nextId := st.nextId + 1), n)
  }

  /** A successful copy adds exactly one BLOB, under an id that was not in use. */
  lemma CopyIntoAddsOneBlob(st: Store, src: Source, n: nat)
    requires StoreValid(st) && CanSupply(src, n)
    requires CopyInto(st, src, n).ok
    ensures var cp := CopyInto(st, src, n);
      && st.nextId != 0 && st.nextId !in st.blobs
      && cp.store.blobs.Keys == st.blobs.Keys + {st.nextId}
      && |cp.store.blobs| == |st.blobs| + 1
      && cp.store.blobs[st.nextId] == src.available[..n]
  {
  }

  /** What `FBBlob.getBinaryStream` yields for `id`: no stream when the store has no such
      BLOB; the BLOB's bytes up to end-of-file when the server answers; an immediate I/O
      error when it does not. */
  function Open(st: Store, id: int): (src: Option<Source>)
    ensures src.None? <==> id !in st.blobs
    ensures src.Some? && st.reachable ==> src.value == Source(st.blobs[id], false)
    ensures src.Some? && !st.reachable ==> src.value.endsInError && src.value.available == []
  {
    if id !in st.blobs then None
    else if st.reachable then Some(Source(st.blobs[id], false))
    else Some(Source([], true))
  }

  class Server {
    var blobs: map<int, Bytes>
    var nextId: int
    var reachable: bool

    ghost predicate Valid()
      reads this
    {
      StoreValid(State())
    }

    function State(): Store
      reads this
    {
      Store(blobs, nextId, reachable)
    }

    constructor (reachable: bool)
      ensures Valid() && State() == Store(map[], 1, reachable)
    {
      blobs := map[];
      nextId := 1;
      this.reachable := reachable;
    }

    /** Stores `content` as a new BLOB and returns its id. */
    method Create(content: Bytes) returns (id: int)
      requires Valid() && CanCreate(State())
      modifies this
      ensures Valid()
      ensures id == old(nextId) && id !in old(blobs)
      ensures State() == old(State()).(blobs := old(blobs)[id := content], nextId := id + 1)
    {
      id := nextId;
      blobs := blobs[id := content];
      nextId := nextId + 1;
    }
  }

  /** The part of `FBConnection` the field uses: the auto-commit flag and the transaction. */
  class Connection {
    var autoCommit: bool
    var inTransaction: bool
    const server: Server

    constructor (server: Server, autoCommit: bool)
      ensures this.server == server && this.autoCommit == autoCommit && !inTransaction
    {
      this.server := server;
      this.autoCommit := autoCommit;
      inTransaction := false;
    }

    method GetAutoCommit() returns (a: bool)
      ensures a == autoCommit
    {
      a := autoCommit;
    }

    /** `ensureInTransaction`: starts a transaction unless one is running. */
    method EnsureInTransaction()
      modifies this
      ensures inTransaction && autoCommit == old(autoCommit)
    {
      inTransaction := true;
    }
  }

  /** `FBBlob`: a handle on one server BLOB. */
  class Blob {
    const conn: Connection
    var blobId: int

    constructor (conn: Connection, blobId: int)
      ensures this.conn == conn && this.blobId == blobId
    {
      this.conn := conn;
      this.blobId := blobId;
    }

    /** `copyStream(in, length)`: fills a new BLOB with the next `length` bytes of `in`
        and makes this handle refer to it. When the server cannot create the BLOB the
        stream is left alone; when the stream fails first, everything it had was read. */
    method CopyStream(in': InputStream, length: nat) returns (ok: bool)
      requires conn.server.Valid() && in'.Valid() && CanSupply(in'.Remaining(), length)
      modifies this, conn.server, in'
      ensures conn.server.Valid() && in'.Valid()
      ensures var cp := CopyInto(old(conn.server.State()), old(in'.Remaining()), length);
        && ok == cp.ok
        && conn.server.State() == cp.store
        && in'.pos == old(in'.pos) + cp.consumed
      ensures ok ==> blobId == old(conn.server.nextId)
    {
      var server := conn.server;
      if !CanCreate(server.State()) {
        return false;
      }
      if |in'.content| - in'.pos < length {
        in'.pos := |in'.content|;
        return false;
      }
      var bytes := in'.content[in'.pos..in'.pos + length];
      assert bytes == in'.Remaining().available[..length];
      in'.pos := in'.pos + length;
      blobId := server.Create(bytes);
      ok := true;
    }

    /** `getBinaryStream()`: a fresh stream over the BLOB, or null when it does not exist. */
    method GetBinaryStream() returns (s: InputStream?)
      ensures s != null ==> fresh(s) && s.Valid() && s.pos == 0
      ensures SourceOf(s) == Open(conn.server.State(), blobId)
    {
      var src := Open(conn.server.State(), blobId);
      if src.None? {
        return null;
      }
      s := new InputStream(src.value.available, src.value.endsInError);
    }

    /** `close()`: fails when the server does not answer. */
    method Close() returns (ok: bool)
      ensures ok == conn.server.reachable
    {
      ok := conn.server.reachable;
    }
  }
}
