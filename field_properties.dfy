/** What the write-side state machine of the text-BLOB field guarantees across calls:
    the two write paths, flushing exactly once, null writes, and where the bytes of a
    write end up on the server. */
module FieldProperties {
  import opened Types
  import opened Sqlvar
  import opened Streams
  import opened Blobs
  import opened FieldSpec
  import LongVarChar

  /** With auto-commit on, a write of `n` available bytes only fills the field's buffer:
      no BLOB is created and the outgoing slot is untouched. */
  lemma BufferedWrite(w: WriteState, src: Source, n: nat)
    requires w.autoCommit && n <= |src.available|
    ensures var s := SetBinaryStream(w, Some(src), n);
      && s.ok && s.consumed == n
      && s.post.isCachedData && s.post.data == Some(src.available[..n])
      && s.post.length == |s.post.data.value| == n
      && s.post.store == w.store && s.post.sqldata == w.sqldata
      && s.post.inTransaction == w.inTransaction
  {
  }

  /** With auto-commit off, a write ensures a transaction and creates one new BLOB whose id
      the slot now holds; the field's buffer and pending flag are not touched. */
  lemma ImmediateWrite(w: WriteState, src: Source, n: nat)
    requires Valid(w) && !w.autoCommit && CanSupply(src, n)
    ensures var s := SetBinaryStream(w, Some(src), n);
      && s.post.inTransaction
      && s.post.isCachedData == w.isCachedData && s.post.data == w.data && s.post.length == w.length
      && (s.ok <==> CanCreate(w.store) && n <= |src.available|)
      && (s.ok ==>
            && w.store.nextId !in w.store.blobs
            && s.post.store.blobs == w.store.blobs[w.store.nextId := src.available[..n]]
            && |s.post.store.blobs| == |w.store.blobs| + 1
            && s.post.sqldata.Some? && |s.post.sqldata.value| == 8
            && DecodeLong(s.post.sqldata.value) == w.store.nextId)
      && (!s.ok ==> s.post.store == w.store && s.post.sqldata == w.sqldata)
  {
    if CanCreate(w.store) && n <= |src.available| {
      CopyIntoAddsOneBlob(w.store, src, n);
      LongRoundTrip(w.store.nextId);
    }
  }

  /** A flush with nothing pending does nothing. A flush with data pending writes the whole
      buffer to one new BLOB and points the slot at it, after which a second flush does
      nothing; a flush that fails keeps the data pending and changes neither store nor slot. */
  lemma FlushOnce(w: WriteState)
    requires Valid(w)
    ensures var s := Flush(w);
      && (!w.isCachedData ==> s == Step(true, w, 0))
      && (w.isCachedData && s.ok ==>
            && !s.post.isCachedData
            && s.post.store.blobs == w.store.blobs[w.store.nextId := w.data.value]
            && |s.post.store.blobs| == |w.store.blobs| + 1
            && s.post.sqldata.Some? && |s.post.sqldata.value| == 8
            && DecodeLong(s.post.sqldata.value) == w.store.nextId)
      && (w.isCachedData && !s.ok ==>
            s.post.isCachedData && s.post.store == w.store && s.post.sqldata == w.sqldata)
      && (s.ok ==> Flush(s.post) == Step(true, s.post, 0))
  {
    if w.isCachedData {
      var src := Source(w.data.value, false);
      assert src.available[..w.length] == w.data.value;
      if CopyInto(w.store, src, w.length).ok {
        CopyIntoAddsOneBlob(w.store, src, w.length);
        LongRoundTrip(w.store.nextId);
      }
    }
  }

  /** A null write (`setString(null)`, `setBytes(null)`, `setBinaryStream(null, n)`) only
      nulls the outgoing slot: no encoding, no buffering, no BLOB, no transaction. */
  lemma NullWritesOnlyNullTheSlot(w: WriteState, n: nat)
    ensures SetBinaryStream(w, None, n) == Step(true, w.(sqldata := None), 0)
    ensures SetEncoded(w, None) == Step(true, w.(sqldata := None), 0)
  {
  }

  /** A value buffered under auto-commit and then flushed ends up as one BLOB holding
      exactly the encoded bytes, under the id the slot now decodes to. */
  lemma BufferedWriteThenFlush(w: WriteState, b: Bytes)
    requires Valid(w) && w.autoCommit && CanCreate(w.store)
    ensures var s1 := SetEncoded(w, Some(b));
      var s2 := Flush(s1.post);
      && s1.ok && s2.ok && !s2.post.isCachedData
      && s2.post.sqldata.Some? && |s2.post.sqldata.value| == 8
      && DecodeLong(s2.post.sqldata.value) in s2.post.store.blobs
      && s2.post.store.blobs[DecodeLong(s2.post.sqldata.value)] == b
      && LongVarChar.Drain(Open(s2.post.store, DecodeLong(s2.post.sqldata.value))) == Ok(Some(b))
  {
    var s1 := SetEncoded(w, Some(b));
    assert b[..|b|] == b;
    FlushOnce(s1.post);
  }

  /** A value written with auto-commit off is at once one BLOB holding exactly the encoded
      bytes, under the id the slot now decodes to. */
  lemma ImmediateWriteStoresBytes(w: WriteState, b: Bytes)
    requires Valid(w) && !w.autoCommit && CanCreate(w.store)
    ensures var s := SetEncoded(w, Some(b));
      && s.ok && s.post.inTransaction
      && s.post.sqldata.Some? && |s.post.sqldata.value| == 8
      && DecodeLong(s.post.sqldata.value) in s.post.store.blobs
      && s.post.store.blobs[DecodeLong(s.post.sqldata.value)] == b
      && LongVarChar.Drain(Open(s.post.store, DecodeLong(s.post.sqldata.value))) == Ok(Some(b))
  {
    assert b[..|b|] == b;
    ImmediateWrite(w, Source(b, false), |b|);
  }

  /** A null write does not discard a pending buffer: the next flush still writes it and
      points the slot at the new BLOB, replacing the null. */
  lemma NullAfterBufferedWriteIsFlushed(w: WriteState, b: Bytes)
    requires Valid(w) && w.autoCommit && CanCreate(w.store)
    ensures var s1 := SetEncoded(w, Some(b));
      var s2 := SetEncoded(s1.post, None);
      var s3 := Flush(s2.post);
      && s2.post.sqldata == None && s2.post.isCachedData
      && s3.ok && s3.post.sqldata.Some?
      && s3.post.store.blobs == w.store.blobs[w.store.nextId := b]
  {
    var s1 := SetEncoded(w, Some(b));
    assert b[..|b|] == b;
    FlushOnce(SetNull(s1.post));
  }

  /** What a read through a handle on `id` returns: the BLOB's bytes when the server
      answers, a conversion error when it does not, and null when there is no such BLOB. */
  lemma ReadThroughHandle(st: Store, id: int)
    ensures id !in st.blobs ==> LongVarChar.Drain(Open(st, id)) == Ok(None)
    ensures id in st.blobs && st.reachable ==> LongVarChar.Drain(Open(st, id)) == Ok(Some(st.blobs[id]))
    ensures id in st.blobs && !st.reachable ==> LongVarChar.Drain(Open(st, id)) == Fail(ConversionError)
  {
  }
}
