/** The content-addressed artifact store: rows of an index and files beside them
    (crates/impetus-core/src/durable_artifacts.rs). The hash is an arbitrary injective function, and
    every file and index operation may fail. */
module DurableArtifacts {
  import opened Text
  import opened Utf8

  type ArtifactId = string

  datatype ArtifactRef = ArtifactRef(id: ArtifactId, byteCount: nat)

  datatype Row = Row(byteCount: nat, created: nat, contentType: Option<string>)

  datatype StoreError = IoError

  ghost predicate Injective(sha: Bytes -> ArtifactId) {
    forall x, y :: sha(x) == sha(y) ==> x == y
  }

  /** How the index lookup, the file write and the index insert of one store call go. A lookup that fails
      reads as "not there"; a write that fails leaves some content behind. */
  datatype StoreIo = StoreIo(lookupOk: bool, writeOk: bool, left: Bytes, insertOk: bool)

  const WORKING: StoreIo := StoreIo(true, true, [], true)

  /** The lookup and the write both fail: what is then left in the file may spoil an indexed one. */
  predicate Torn(io: StoreIo) {
    !io.lookupOk && !io.writeOk
  }

  /** Whether a store call succeeds, given how reaching the store and its call go (`None` when it cannot be opened) and
      whether it holds the content already. */
  predicate Stores(io: Option<StoreIo>, present: bool) {
    io.Some? && if present then io.value.lookupOk else io.value.writeOk && io.value.insertOk
  }

  /** No torn store call. */
  predicate Calm(io: Option<StoreIo>) {
    io.Some? ==> !Torn(io.value)
  }

  predicate Works(io: Option<StoreIo>) {
    io.Some? && io.value.lookupOk && io.value.writeOk && io.value.insertOk
  }

  /** `bytes.get(start..end)` with `end` clipped to the file. */
  function Range(file: Bytes, start: nat, len: nat): Bytes {
    if start <= |file| then file[start..Min(start + len, |file|)] else []
  }

  /** Every indexed artifact has a file whose hash is its id. */
  ghost predicate Sound(sha: Bytes -> ArtifactId, rows: map<ArtifactId, Row>, files: map<ArtifactId, Bytes>) {
    forall id | id in rows :: id in files && sha(files[id]) == id && rows[id].byteCount == |files[id]|
  }

  /** Every artifact indexed before still reads back the same. */
  ghost predicate StillThere(rows: map<ArtifactId, Row>, files: map<ArtifactId, Bytes>,
                             rows': map<ArtifactId, Row>, files': map<ArtifactId, Bytes>) {
    forall id | id in rows && id in files :: id in rows' && id in files' && files'[id] == files[id]
  }

  /** Overwriting the file of an artifact keeps the index sound exactly when nothing indexed changed. */
  lemma SpoiltExactlyWhen(sha: Bytes -> ArtifactId, rows: map<ArtifactId, Row>, files: map<ArtifactId, Bytes>,
                          bytes: Bytes, left: Bytes)
    requires Injective(sha) && Sound(sha, rows, files)
    ensures Sound(sha, rows, files[sha(bytes) := left]) <==> !(sha(bytes) in rows && left != bytes)
  {
    var files' := files[sha(bytes) := left];
    if sha(bytes) in rows {
      assert sha(files[sha(bytes)]) == sha(bytes);
      assert Sound(sha, rows, files') ==> sha(files'[sha(bytes)]) == sha(bytes);
    }
  }

  /** Dropping rows and files keeps the index sound exactly when no row outlives its file. */
  lemma DroppedExactlyWhen(sha: Bytes -> ArtifactId, rows: map<ArtifactId, Row>, files: map<ArtifactId, Bytes>,
                           goneRows: set<ArtifactId>, goneFiles: set<ArtifactId>)
    requires Sound(sha, rows, files)
    ensures Sound(sha, rows - goneRows, files - goneFiles) <==> rows.Keys * goneFiles <= goneRows
  {
    var rows', files' := rows - goneRows, files - goneFiles;
    if Sound(sha, rows', files') {
      forall id | id in rows.Keys * goneFiles
        ensures id in goneRows
      {
        assert id !in files';
      }
    }
  }

  /** One more id of `left` handled, where it does not fail. */
  lemma CollectStep<V>(m: map<ArtifactId, V>, ids: set<ArtifactId>, left: set<ArtifactId>, fails: set<ArtifactId>,
                       id: ArtifactId)
    requires id in left && left <= ids
    ensures m - (ids - (left - {id}) - fails) == (m - (ids - left - fails)) - (if id in fails then {} else {id})
  {
    var more := if id in fails then {} else {id};
    assert ids - (left - {id}) - fails == (ids - left - fails) + more;
    assert (m - (ids - left - fails)) - more == m - ((ids - left - fails) + more);
  }

  class DurableArtifactStore {
    var rows: map<ArtifactId, Row>
    var files: map<ArtifactId, Bytes>
    const sha: Bytes -> ArtifactId

    ghost predicate Valid()
      reads this
    {
      Injective(sha) && Sound(sha, rows, files)
    }

    constructor (sha: Bytes -> ArtifactId)
      requires Injective(sha)
      ensures Valid() && this.sha == sha && rows == map[] && files == map[]
    {
      this.sha, rows, files := sha, map[], map[];
    }

    twostate predicate Kept()
      reads this
    {
      StillThere(old(rows), old(files), rows, files)
    }

    /** Stores bytes under their hash; content already indexed is not written again. While the index is sound, a
        reference that comes back reads back the bytes, and the index stays sound exactly unless a failed lookup
        and a failed write together spoil an indexed file. A failure leaves the rows, and no other file changes. */
    method StoreWithContentType(bytes: Bytes, contentType: Option<string>, now: nat, io: StoreIo)
      returns (r: Result<ArtifactRef, StoreError>)
      requires Injective(sha)
      modifies this
      ensures r.Ok? <==> if sha(bytes) in old(rows) then io.lookupOk else io.writeOk && io.insertOk
      ensures r.Ok? ==> r.value == ArtifactRef(sha(bytes), |bytes|) && sha(bytes) in rows
      ensures r.Ok? && sha(bytes) in old(rows) ==> rows == old(rows) && files == old(files)
      ensures r.Ok? && old(Valid()) ==> sha(bytes) in files && files[sha(bytes)] == bytes
      ensures r.Ok? && sha(bytes) !in old(rows) ==> rows == old(rows)[sha(bytes) := Row(|bytes|, now, contentType)]
      ensures r.Err? ==> rows == old(rows)
      ensures files - {sha(bytes)} == old(files) - {sha(bytes)}
      ensures old(Valid()) ==> (Valid() <==> !(sha(bytes) in old(rows) && Torn(io) && io.left != bytes))
      ensures old(Valid()) && !Torn(io) ==> Kept()
    {
      var id := sha(bytes);
      var found := io.lookupOk && id in rows;
      if !found {
        if !io.writeOk {
          files := files[id := io.left];
          if old(Valid()) {
            SpoiltExactlyWhen(sha, old(rows), old(files), bytes, io.left);
          }
          return Err(IoError);
        }
        files := files[id := bytes];
        if !io.insertOk || id in rows {
          return Err(IoError);
        }
        rows := rows[id := Row(|bytes|, now, contentType)];
      }
      return Ok(ArtifactRef(id, |bytes|));
    }

    /** Reads a range, clipped to the file. */
    method ReadRange(id: ArtifactId, start: nat, len: nat) returns (r: Result<Bytes, StoreError>)
      ensures r == if id in files then Ok(Range(files[id], start, len)) else Err(IoError)
    {
      if id !in files {
        return Err(IoError);
      }
      var bytes := files[id];
      var end := Min(start + len, |bytes|);
      return Ok(if start <= end then bytes[start..end] else []);
    }

    /** Removes the row first, and the file only then: no failure leaves a row without its file. */
    method Delete(id: ArtifactId, rowOk: bool, fileOk: bool) returns (r: Result<(), StoreError>)
      modifies this
      ensures old(Valid()) ==> Valid()
      ensures rows == (if rowOk then old(rows) - {id} else old(rows))
      ensures files == (if rowOk && fileOk then old(files) - {id} else old(files))
      ensures r.Ok? <==> rowOk && (id in old(files) ==> fileOk)
    {
      if !rowOk {
        return Err(IoError);
      }
      rows := rows - {id};
      if id in files {
        if !fileOk {
          return Err(IoError);
        }
        files := files - {id};
      }
      assert id !in files ==> files - {id} == files;
      return Ok(());
    }

    /** Rows older than the threshold. */
    ghost function Expired(threshold: nat): set<ArtifactId>
      reads this
    {
      set id | id in rows && rows[id].created < threshold
    }

    /** Collects expired artifacts, going on past every failure. The index is sound afterwards exactly when
        no row survived a failed delete while its file was removed. */
    method GcOlderThan(threshold: nat, rowFails: set<ArtifactId>, fileFails: set<ArtifactId>) returns (count: nat)
      modifies this
      ensures count == |old(Expired(threshold))|
      ensures rows == old(rows) - (old(Expired(threshold)) - rowFails)
      ensures files == old(files) - (old(Expired(threshold)) - fileFails)
      ensures old(Valid()) ==> (Valid() <==> old(Expired(threshold)) * rowFails <= fileFails)
    {
      var ids := set id | id in rows && rows[id].created < threshold;
      count := |ids|;
      var left := ids;
      ghost var rows0, files0 := rows, files;
      while left != {}
        invariant left <= ids
        invariant rows == rows0 - (ids - left - rowFails) && files == files0 - (ids - left - fileFails)
        decreases left
      {
        var id :| id in left;
        CollectStep(rows0, ids, left, rowFails, id);
        CollectStep(files0, ids, left, fileFails, id);
        rows := rows - (if id in rowFails then {} else {id});
        files := files - (if id in fileFails then {} else {id});
        left := left - {id};
      }
      assert ids - left == ids;
      if old(Valid()) {
        DroppedExactlyWhen(sha, rows0, files0, ids - rowFails, ids - fileFails);
      }
    }
  }

  /** A collection whose row delete fails leaves a row without its file: storing the same bytes again succeeds,
      and the reference it returns cannot be read. */
  method CollectionCanOrphanARow(sha: Bytes -> ArtifactId, bytes: Bytes, now: nat)
    returns (again: Result<ArtifactRef, StoreError>, read: Result<Bytes, StoreError>)
    requires Injective(sha)
    ensures again == Ok(ArtifactRef(sha(bytes), |bytes|)) && read.Err?
  {
    var id := sha(bytes);
    var store := new DurableArtifactStore(sha);
    var _ := store.StoreWithContentType(bytes, None, now, WORKING);
    assert store.Expired(now + 1) == {id};
    assert {id} - {id} == {} && {id} - {} == {id};
    var _ := store.GcOlderThan(now + 1, {id}, {});
    assert id in store.rows && id !in store.files;
    again := store.StoreWithContentType(bytes, None, now + 1, WORKING);
    read := store.ReadRange(id, 0, |bytes|);
  }
}
