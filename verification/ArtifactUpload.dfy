/** Chunked uploads: the store of pending uploads, and the client loop that drives it
    (crates/impetus-core/src/artifact_upload.rs, crates/impetus-client/src/lib.rs). Chunks travel as
    base64, which is taken to be undone exactly. */
module ArtifactUpload {
  import opened Text
  import opened Utf8
  import opened DurableArtifacts

  const MAX_ARTIFACT_UPLOAD_BYTES: nat := 8 * 1024 * 1024
  const MAX_ARTIFACT_UPLOAD_CHUNK_BYTES: nat := 24 * 1024
  const MAX_CONCURRENT_UPLOADS: nat := 16

  type UploadId = nat

  datatype PendingUpload = PendingUpload(declared: Option<nat>, contentType: Option<string>, nextSeq: nat,
                                         buffer: Bytes)

  type Pending = map<UploadId, PendingUpload>

  datatype UploadError =
    | NotFound(id: UploadId)
    | TooLarge
    | ChunkTooLarge
    | TooManyUploads
    | SequenceMismatch(expected: nat, got: nat)
    | DeclaredSizeExceeded(declared: nat, received: nat)
    | DeclaredSizeMismatch(declared: nat, received: nat)
    | StoreFailed

  /** At most so many uploads are pending, each within its bounds. */
  ghost predicate Bounded(pending: Pending) {
    && |pending| <= MAX_CONCURRENT_UPLOADS
    && forall id | id in pending ::
         && |pending[id].buffer| <= MAX_ARTIFACT_UPLOAD_BYTES
         && (pending[id].declared.Some?
             ==> |pending[id].buffer| <= pending[id].declared.value <= MAX_ARTIFACT_UPLOAD_BYTES)
  }

  /** Why a chunk is turned away, if it is. */
  function AppendRefusal(pending: Pending, id: UploadId, seqNo: nat, chunk: Bytes): Option<UploadError> {
    if |chunk| > MAX_ARTIFACT_UPLOAD_CHUNK_BYTES then Some(ChunkTooLarge)
    else if id !in pending then Some(NotFound(id))
    else
      var u := pending[id];
      var total := |u.buffer| + |chunk|;
      if seqNo != u.nextSeq then Some(SequenceMismatch(u.nextSeq, seqNo))
      else if total > MAX_ARTIFACT_UPLOAD_BYTES then Some(TooLarge)
      else if u.declared.Some? && total > u.declared.value then Some(DeclaredSizeExceeded(u.declared.value, total))
      else None
  }

  class ArtifactUploadStore {
    var pending: Pending
    const durable: DurableArtifactStore

    ghost predicate Valid()
      reads this
    {
      Bounded(pending) && Injective(durable.sha)
    }

    constructor (durable: DurableArtifactStore)
      requires Injective(durable.sha)
      ensures Valid() && this.durable == durable && pending == map[]
    {
      this.durable, pending := durable, map[];
    }

    /** Opens an upload under a fresh id, if the declared size and the number of uploads allow it. */
    method Begin(declared: Option<nat>, contentType: Option<string>, newId: UploadId)
      returns (r: Result<UploadId, UploadError>)
      requires Valid() && newId !in pending
      modifies this
      ensures Valid()
      ensures r == if declared.Some? && declared.value > MAX_ARTIFACT_UPLOAD_BYTES then Err(TooLarge)
                   else if |old(pending)| >= MAX_CONCURRENT_UPLOADS then Err(TooManyUploads)
                   else Ok(newId)
      ensures pending == if r.Ok? then old(pending)[newId := PendingUpload(declared, contentType, 0, [])]
                         else old(pending)
    {
      if declared.Some? && declared.value > MAX_ARTIFACT_UPLOAD_BYTES {
        return Err(TooLarge);
      }
      if |pending| >= MAX_CONCURRENT_UPLOADS {
        return Err(TooManyUploads);
      }
      pending := pending[newId := PendingUpload(declared, contentType, 0, [])];
      return Ok(newId);
    }

    /** Adds the next chunk; a chunk turned away changes nothing. */
    method Append(id: UploadId, seqNo: nat, chunk: Bytes) returns (r: Result<nat, UploadError>)
      requires Valid()
      modifies this
      ensures Valid()
      ensures AppendRefusal(old(pending), id, seqNo, chunk).Some? ==>
                r == Err(AppendRefusal(old(pending), id, seqNo, chunk).value) && pending == old(pending)
      ensures AppendRefusal(old(pending), id, seqNo, chunk).None? ==>
                var u := old(pending)[id];
                && r == Ok(|u.buffer| + |chunk|)
                && pending == old(pending)[id := u.(buffer := u.buffer + chunk, nextSeq := u.nextSeq + 1)]
    {
      if |chunk| > MAX_ARTIFACT_UPLOAD_CHUNK_BYTES {
        return Err(ChunkTooLarge);
      }
      if id !in pending {
        return Err(NotFound(id));
      }
      var u := pending[id];
      if seqNo != u.nextSeq {
        return Err(SequenceMismatch(u.nextSeq, seqNo));
      }
      var newLen := |u.buffer| + |chunk|;
      if newLen > MAX_ARTIFACT_UPLOAD_BYTES {
        return Err(TooLarge);
      }
      if u.declared.Some? && newLen > u.declared.value {
        return Err(DeclaredSizeExceeded(u.declared.value, newLen));
      }
      pending := pending[id := u.(buffer := u.buffer + chunk, nextSeq := u.nextSeq + 1)];
      return Ok(newLen);
    }

    /** Closes an upload and commits it; `io` is `None` when the artifact store cannot be opened. The upload is gone
        whatever comes of it, and while the index is sound a reference that comes back reads back exactly the bytes
        received. */
    method Finish(id: UploadId, now: nat, io: Option<StoreIo>) returns (r: Result<ArtifactRef, UploadError>)
      requires Valid()
      modifies this, durable
      ensures Valid() && pending == old(pending) - {id}
      ensures r.Ok? ==>
                && id in old(pending)
                && r.value.byteCount == |old(pending)[id].buffer|
                && r.value.id in durable.rows
      ensures r.Ok? && old(durable.Valid()) ==>
                r.value.id in durable.files && durable.files[r.value.id] == old(pending)[id].buffer
      ensures id !in old(pending) ==> r == Err(NotFound(id))
      ensures id in old(pending) ==>
                var u := old(pending)[id];
                if u.declared.Some? && u.declared.value != |u.buffer| then
                  r == Err(DeclaredSizeMismatch(u.declared.value, |u.buffer|))
                else if Stores(io, durable.sha(u.buffer) in old(durable.rows)) then r.Ok?
                else r == Err(StoreFailed)
      ensures io.None? || (r.Err? && !r.error.StoreFailed?) ==>
                durable.rows == old(durable.rows) && durable.files == old(durable.files)
      ensures old(durable.Valid()) && Calm(io) ==> durable.Valid() && durable.Kept()
    {
      if id !in pending {
        assert pending - {id} == pending;
        return Err(NotFound(id));
      }
      var u := pending[id];
      RemoveKeepsBounded(pending, id);
      pending := pending - {id};
      if u.declared.Some? && u.declared.value != |u.buffer| {
        return Err(DeclaredSizeMismatch(u.declared.value, |u.buffer|));
      }
      if io.None? {
        return Err(StoreFailed);
      }
      var stored := durable.StoreWithContentType(u.buffer, u.contentType, now, io.value);
      r := if stored.Ok? then Ok(stored.value) else Err(StoreFailed);
    }

    method Abort(id: UploadId) returns (r: Result<(), UploadError>)
      requires Valid()
      modifies this
      ensures Valid() && pending == old(pending) - {id}
      ensures r == if id in old(pending) then Ok(()) else Err(NotFound(id))
    {
      if id !in pending {
        assert pending - {id} == pending;
        return Err(NotFound(id));
      }
      RemoveKeepsBounded(pending, id);
      pending := pending - {id};
      return Ok(());
    }
  }

  lemma RemoveKeepsBounded(pending: Pending, id: UploadId)
    requires Bounded(pending) && id in pending
    ensures Bounded(pending - {id}) && |pending - {id}| == |pending| - 1
  {
    var rest := pending - {id};
    assert pending == rest[id := pending[id]];
  }

  //
  // Other clients.
  //

  datatype Request =
    | BeginRequest(declared: Option<nat>, contentType: Option<string>, newId: UploadId)
    | AppendRequest(id: UploadId, seqNo: nat, chunk: Bytes)
    | FinishRequest(id: UploadId, now: nat, io: Option<StoreIo>)
    | AbortRequest(id: UploadId)

  /** A request that does not name upload `mine`. */
  predicate Foreign(q: Request, mine: UploadId) {
    match q
    case BeginRequest(_, _, newId) => newId != mine
    case AppendRequest(id, _, _) => id != mine
    case FinishRequest(id, _, _) => id != mine
    case AbortRequest(id) => id != mine
  }

  predicate AllForeign(qs: seq<Request>, mine: UploadId) {
    forall q | q in qs :: Foreign(q, mine)
  }

  /** No store call of these requests both fails to look up and fails to write. */
  predicate NoneTorn(qs: seq<Request>) {
    forall q | q in qs && q.FinishRequest? :: Calm(q.io)
  }

  /** Serves any requests. An upload none of them names is left alone, and so is what is stored, unless a store
      call is torn. */
  method Serve(store: ArtifactUploadStore, requests: seq<Request>, ghost mine: UploadId)
    requires store.Valid()
    modifies store, store.durable
    ensures store.Valid()
    ensures AllForeign(requests, mine) && mine in old(store.pending) ==>
              mine in store.pending && store.pending[mine] == old(store.pending)[mine]
    ensures old(store.durable.Valid()) && NoneTorn(requests) ==> store.durable.Valid() && store.durable.Kept()
  {
    for k := 0 to |requests|
      invariant store.Valid()
      invariant AllForeign(requests, mine) && mine in old(store.pending) ==>
                  mine in store.pending && store.pending[mine] == old(store.pending)[mine]
      invariant old(store.durable.Valid()) && NoneTorn(requests) ==> store.durable.Valid() && store.durable.Kept()
    {
      assert AllForeign(requests, mine) ==> Foreign(requests[k], mine);
      assert requests[k] in requests;
      match requests[k] {
        case BeginRequest(declared, contentType, newId) =>
          if newId !in store.pending {
            var _ := store.Begin(declared, contentType, newId);
          }
        case AppendRequest(id, seqNo, chunk) =>
          var _ := store.Append(id, seqNo, chunk);
        case FinishRequest(id, now, io) =>
          var _ := store.Finish(id, now, io);
        case AbortRequest(id) =>
          var _ := store.Abort(id);
      }
    }
  }

  //
  // The client.
  //

  /** No request served meanwhile names the upload. */
  ghost predicate Undisturbed(others: nat -> seq<Request>, id: UploadId) {
    forall k: nat :: AllForeign(others(k), id)
  }

  ghost predicate Untorn(others: nat -> seq<Request>) {
    forall k: nat :: NoneTorn(others(k))
  }

  /** The upload as it stands after some chunks of the body. */
  ghost predicate Sent(pending: Pending, id: UploadId, contentType: Option<string>, seqNo: nat, sent: Bytes,
                       body: Bytes) {
    id in pending && pending[id] == PendingUpload(Some(|body|), contentType, seqNo, sent)
  }

  /** Sends the body chunk by chunk, `others(k)` being served before the k-th; gives up and aborts on the
      first chunk turned away, which does not happen to an upload left undisturbed. */
  method SendChunks(store: ArtifactUploadStore, body: Bytes, ghost contentType: Option<string>, id: UploadId,
                    others: nat -> seq<Request>)
    returns (r: Result<nat, UploadError>)
    requires store.Valid() && |body| <= MAX_ARTIFACT_UPLOAD_BYTES
    requires Sent(store.pending, id, contentType, 0, [], body)
    modifies store, store.durable
    ensures store.Valid()
    ensures old(store.durable.Valid()) && Untorn(others) ==> store.durable.Valid() && store.durable.Kept()
    ensures Undisturbed(others, id) ==> r.Ok? && Sent(store.pending, id, contentType, r.value, body, body)
    ensures r.Err? ==> id !in store.pending
  {
    var offset, seqNo := 0, 0;
    while offset < |body|
      invariant store.Valid() && offset <= |body|
      invariant old(store.durable.Valid()) && Untorn(others) ==> store.durable.Valid() && store.durable.Kept()
      invariant Undisturbed(others, id) ==> Sent(store.pending, id, contentType, seqNo, body[..offset], body)
    {
      Serve(store, others(seqNo), id);
      var end := Min(offset + MAX_ARTIFACT_UPLOAD_CHUNK_BYTES, |body|);
      var accepted := store.Append(id, seqNo, body[offset..end]);
      if accepted.Err? {
        var _ := store.Abort(id);
        return Err(accepted.error);
      }
      assert body[..offset] + body[offset..end] == body[..end];
      offset, seqNo := end, seqNo + 1;
    }
    assert body[..offset] == body;
    return Ok(seqNo);
  }

  /** Uploads a body in chunks, `others(k)` being served before its k-th following request. Undisturbed, and
      with a working store, it succeeds exactly when the body fits and a slot was free, and nothing stays pending
      under its id. On a sound index that no store call tore, what it returns reads back the body, and every
      artifact already stored is left alone. */
  method UploadArtifact(store: ArtifactUploadStore, body: Bytes, contentType: Option<string>, newId: UploadId,
                        others: nat -> seq<Request>, now: nat, io: Option<StoreIo>)
    returns (r: Result<ArtifactRef, UploadError>)
    requires store.Valid() && newId !in store.pending
    modifies store, store.durable
    ensures store.Valid() && newId !in store.pending
    ensures Undisturbed(others, newId) && r.Ok? ==> r.value.byteCount == |body| && r.value.id in store.durable.rows
    ensures Undisturbed(others, newId) && r.Ok? && old(store.durable.Valid()) && Untorn(others) ==>
              r.value.id in store.durable.files && store.durable.files[r.value.id] == body
    ensures Undisturbed(others, newId) && Works(io) ==>
              (r.Ok? <==> |body| <= MAX_ARTIFACT_UPLOAD_BYTES && |old(store.pending)| < MAX_CONCURRENT_UPLOADS)
    ensures old(store.durable.Valid()) && Untorn(others) && Calm(io) ==> store.durable.Valid() && store.durable.Kept()
  {
    var begun := store.Begin(Some(|body|), contentType, newId);
    if begun.Err? {
      return Err(begun.error);
    }
    var sent := SendChunks(store, body, contentType, newId, others);
    if sent.Err? {
      return Err(sent.error);
    }
    Serve(store, others(sent.value), newId);
    r := store.Finish(newId, now, io);
  }
}
