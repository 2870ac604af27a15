/**
 Reading one entry, with or without its file (sqlite/dao/karing_dao_read.cpp).
 */
module DaoRead {
  import opened Rows
  import opened StoreMachine
  import opened Refinement
  import opened Backend

  method ReadById(b: Store, id: int) returns (record: Option<KaringRecord>)
    requires b.pending.None?
    modifies b`faulty
    ensures record.Some? ==> record == GetById(b.Now(), id)
    ensures old(b.faulty) ==> b.faulty
    ensures !b.faulty ==> record == GetById(b.Now(), id)
  {
    var ok := b.Query();
    if !ok { return None; }
    var r, path;
    ghost var misread;
    ok, r, path, misread := b.LoadEntry(id, true);
    record := if ok then Some(r) else None;
  }

  method ReadFileBlob(b: Store, id: int) returns (ok: bool, mime: string, filename: string, data: string)
    requires b.pending.None?
    modifies b`faulty
    ensures ok ==> GetFileBlob(b.Now(), id) == Some(Blob(mime, filename, data))
    ensures old(b.faulty) ==> b.faulty
    ensures !b.faulty ==> (ok <==> GetFileBlob(b.Now(), id).Some?)
  {
    mime, filename, data := "", "", "";
    ok := b.Query();
    if !ok { return; }
    var record, path;
    ghost var misread;
    ok, record, path, misread := b.LoadEntry(id, true);
    if !ok || path.None? {
      ok := false;
      return;
    }
    ok, data := b.Read(path.value);
    if !ok { return; }
    mime := if record.mime == "" then "application/octet-stream" else record.mime;
    filename := if record.filename == "" then "download" else record.filename;
  }

  // In every good state the file of every upload can be read, and nothing else has one.
  lemma BlobIffUpload(s: Snapshot, id: int)
    requires Inv(s) && IsUsed(s.db, id)
    ensures GetFileBlob(s, id).Some? <==> s.db.rows[id].source == Some(FileUpload)
    ensures GetFileBlob(s, id).None? <==> s.db.rows[id].content.Some?
  {
  }
}
