/**
 What clients are told, in their own terms: which requests succeed, what a reader then gets back, and
 where the cursor stands after a restart. Everything is said of records, files and slot numbers, with
 the source's constants spelled out, so that the small functions behind the contracts have a meaning
 apart from themselves.
 */
module Answers {
  import opened Sorting
  import opened Rows
  import opened Compaction
  import opened CompactionLaws
  import opened StoreMachine
  import opened Refinement

  // ----- Which requests succeed -----

  // A slot can be deleted, used or not, exactly if it exists.
  lemma DeleteAccepted(s: Snapshot, id: int)
    requires Inv(s)
    ensures Accepts(s, Delete(id)) <==> 1 <= id <= s.db.max
  {
  }

  // An entry can be replaced exactly if it is there.
  lemma UpdateAccepted(s: Snapshot, op: Op)
    requires op.UpdateText? || op.UpdateFile?
    ensures Accepts(s, op) <==> GetById(s, op.id).Some?
  {
  }

  // A text can be patched exactly if its record is no file and there is no file to read either.
  lemma TextPatchAccepted(s: Snapshot, id: int, newContent: Option<string>, now: int)
    requires Inv(s)
    ensures Accepts(s, PatchText(id, newContent, now)) <==>
      GetById(s, id).Some? && !GetById(s, id).value.isFile && GetFileBlob(s, id).None?
  {
    ReferredAt(s, id);
  }

  // And a file exactly if it can be read.
  lemma FilePatchAccepted(s: Snapshot, id: int, newFilename: Option<string>, newMime: Option<string>,
                          newData: Option<string>, stamp: int, now: int)
    requires Inv(s)
    ensures Accepts(s, PatchFile(id, newFilename, newMime, newData, stamp, now)) <==> GetFileBlob(s, id).Some?
  {
    ReferredAt(s, id);
  }

  lemma ReferredAt(s: Snapshot, id: int)
    requires Inv(s)
    ensures IsUsed(s.db, id) && s.db.rows[id].path.Some? ==> s.db.rows[id].path.value in s.disk
  {
    if IsUsed(s.db, id) && s.db.rows[id].path.Some? {
      assert Refers(s.db, s.db.rows[id].path.value);
    }
  }

  lemma SwapAccepted(s: Snapshot, i: int, j: int)
    requires Inv(s)
    ensures Accepts(s, Swap(i, j)) <==> i == j || (1 <= i <= s.db.max && 1 <= j <= s.db.max)
  {
  }

  // The latest entry can be deleted exactly if the slot behind the cursor has one that is not too old.
  lemma DeleteLatestAccepted(s: Snapshot, maxAge: int, now: int)
    requires Inv(s)
    ensures var target := if s.db.next == 1 then s.db.max else s.db.next - 1;
      Accepts(s, DeleteLatest(maxAge, now)) <==>
        GetById(s, target).Some? && now - GetById(s, target).value.createdAt <= maxAge
  {
  }

  // A store can be opened with at least one slot; made smaller, without force, if no entry is above the
  // new end; and by force if no entry it keeps has a size that reads as negative.
  lemma RestartAccepted(s: Snapshot, limit: int, force: bool)
    requires Inv(s)
    ensures Accepts(s, Restart(limit, force, true)) <==>
      && limit >= 1
      && (limit < s.db.max && !force ==> forall id :: id > limit ==> GetById(s, id).None?)
      && (limit < s.db.max && force ==> forall i :: 0 <= i < |KeptRows(s.db, limit)| ==>
            KeptRows(s.db, limit)[i].size % 0x1_0000_0000 < 0x8000_0000)
  {
    if 1 <= limit < s.db.max {
      assert UsedAbove(s.db, limit) <==> exists id :: id > limit && GetById(s, id).Some? by {
        if id :| id in s.db.rows && id > limit && s.db.rows[id].used {
          assert GetById(s, id).Some?;
        }
      }
    }
  }

  // Where the entries above the new end cannot be counted, nothing stops a shrink but a size that reads as
  // negative; and nothing at all a resequence.
  lemma BlindRestartAccepted(s: Snapshot, limit: int, force: bool)
    requires Inv(s)
    ensures Accepts(s, Restart(limit, force, false)) <==>
      && limit >= 1
      && (limit < s.db.max && force ==> forall i :: 0 <= i < |OldestEntries(s.db, limit)| ==>
            OldestEntries(s.db, limit)[i].val.size % 0x1_0000_0000 < 0x8000_0000)
    ensures forall scanned: nat :: Accepts(s, Resequence(scanned))
  {
    if 1 <= limit < s.db.max {
      var oldest := Vals(OldestEntries(s.db, limit));
      assert forall i :: 0 <= i < |oldest| ==> oldest[i] == OldestEntries(s.db, limit)[i].val;
      assert SizesStorable(oldest) <==>
        forall i :: 0 <= i < |oldest| ==> OldestEntries(s.db, limit)[i].val.size % 0x1_0000_0000 < 0x8000_0000;
    }
  }

  // The cursor goes back to the start when the table shrinks by force or loses the cursor's slot.
  lemma RestartCursor(s: Snapshot, limit: int, force: bool)
    requires Inv(s) && Accepts(s, Restart(limit, force, true))
    ensures var t := Apply(s, Restart(limit, force, true));
      && t.db.max == limit
      && t.db.next == if s.db.max == 0 || s.db.next > limit || (force && limit < s.db.max) then 1 else s.db.next
  {
  }

  // A new store has empty slots only.
  lemma NewStoreIsEmpty(size: int, id: int)
    requires size >= 1
    ensures var t := Apply(BLANK, Restart(size, false, true));
      t.db.next == 1 && GetById(t, id).None? && GetFileBlob(t, id).None? && t.disk == map[]
  {
    EnsureSlotsRows(NO_STORE.rows, 1, size);
  }

  // ----- Texts read back -----

  lemma TextReadsBack(s: Snapshot, content: string, now: int)
    requires Inv(s) && s.db.max > 0
    ensures var t := Apply(s, InsertText(content, now));
      && GetById(t, s.db.next) ==
         Some(KaringRecord(s.db.next, false, CString(content), "", "text/plain; charset=utf-8", now, Some(now)))
      && GetFileBlob(t, s.db.next).None?
  {
  }

  lemma UpdatedTextReadsBack(s: Snapshot, id: int, content: string, now: int)
    requires Inv(s) && GetById(s, id).Some?
    ensures var t := Apply(s, UpdateText(id, content, now));
      && GetById(t, id) == Some(KaringRecord(id, false, CString(content), "", "text/plain; charset=utf-8",
                                             GetById(s, id).value.createdAt, Some(now)))
      && GetFileBlob(t, id).None?
  {
  }

  lemma {:induction false} CStringOfText(s: string)
    ensures CString(s) == s <==> '\0' !in s
  {
    if s != "" && s[0] != '\0' {
      CStringOfText(s[1..]);
      assert s == [s[0]] + s[1..];
    }
  }

  lemma PatchedTextReadsBack(s: Snapshot, id: int, newContent: Option<string>, now: int)
    requires Inv(s) && Accepts(s, PatchText(id, newContent, now))
    ensures var t, was := Apply(s, PatchText(id, newContent, now)), GetById(s, id).value;
      var content := if newContent.Some? then CString(newContent.value) else was.content;
      && GetById(t, id) == Some(KaringRecord(id, false, content, "", "text/plain; charset=utf-8",
                                             was.createdAt, Some(now)))
      && GetFileBlob(t, id).None?
  {
    CStringOfText(GetById(s, id).value.content);
    UpdatedTextReadsBack(s, id, newContent.GetOr(GetById(s, id).value.content), now);
  }

  // ----- Uploads read back -----

  /** The MIME types of files that are shown as text. */
  predicate TextType(mime: string) {
    || (|mime| >= 5 && mime[..5] == "text/")
    || mime == "application/json" || mime == "application/ld+json" || mime == "application/xml"
    || mime == "application/yaml" || mime == "application/x-yaml" || mime == "application/toml"
    || mime == "application/javascript"
  }

  // The media column of an upload by its MIME type, which goes by what stands before the slash.
  lemma KindOfUpload(filename: string, mime: string, data: string, path: Path, stored: int, now: int)
    ensures var kind := FileRow(filename, mime, data, path, stored, now).media;
      && (kind == Some(TextMedia) <==> TextType(mime))
      && (kind == Some(ImageMedia) <==> |mime| >= 6 && mime[..6] == "image/")
      && (kind == Some(AudioMedia) <==> |mime| >= 6 && mime[..6] == "audio/")
      && (kind == Some(VideoMedia) <==> |mime| >= 6 && mime[..6] == "video/")
  {
    var kind := MediaKindForMime(mime);
    TextTypesAreText(mime);
    if "image/" <= mime {
      assert mime[0] == 'i';
    } else if "audio/" <= mime {
      assert mime[0] == 'a' && mime[1] == 'u';
    } else if "video/" <= mime {
      assert mime[0] == 'v';
    }
    hide TextType;
    assert "image/" <= mime <==> |mime| >= 6 && mime[..6] == "image/";
    assert "audio/" <= mime <==> |mime| >= 6 && mime[..6] == "audio/";
    assert "video/" <= mime <==> |mime| >= 6 && mime[..6] == "video/";
  }

  lemma TextTypesAreText(mime: string)
    ensures MediaKindForMime(mime) == TextMedia <==> TextType(mime)
  {
    assert "text/" <= mime <==> |mime| >= 5 && mime[..5] == "text/";
  }

  /** The record of an upload, and what is downloaded from it. */
  ghost predicate UploadShown(t: Snapshot, id: int, filename: Text, mime: string, data: string,
                              created: int, updated: int)
  {
    && GetById(t, id) ==
       Some(KaringRecord(id, !TextType(mime), "", filename, CString(mime), created, Some(updated)))
    && GetFileBlob(t, id) ==
       Some(Blob(if CString(mime) == "" then "application/octet-stream" else CString(mime),
                 if filename == "" then "download" else filename,
                 data))
  }

  lemma UploadReadsBack(s: Snapshot, filename: string, mime: string, data: string, stamp: int, now: int)
    requires Inv(s) && s.db.max > 0
    requires PathAt(s.db, s.db.next) != Some(EntryFile(s.db.next, stamp))
    ensures UploadShown(Apply(s, InsertFile(filename, mime, data, stamp, now)), s.db.next,
                        CString(filename), mime, data, now, now)
  {
    assert s.db.next in s.db.rows;
    TextTypesAreText(mime);
    hide MediaKindForMime, TextType, GoodDb;
  }

  lemma UpdatedFileReadsBack(s: Snapshot, id: int, filename: string, mime: string, data: string,
                             stamp: int, now: int)
    requires Inv(s) && GetById(s, id).Some? && PathAt(s.db, id) != Some(EntryFile(id, stamp))
    ensures UploadShown(Apply(s, UpdateFile(id, filename, mime, data, stamp, now)), id,
                        CString(filename), mime, data, GetById(s, id).value.createdAt, now)
  {
    TextTypesAreText(mime);
    hide MediaKindForMime, TextType, GoodDb;
  }

  // What a file patch does not give stays: the name and the type of the record, the bytes of the file.
  lemma PatchedFileReadsBack(s: Snapshot, id: int, newFilename: Option<string>, newMime: Option<string>,
                             newData: Option<string>, stamp: int, now: int)
    requires Inv(s) && GetFileBlob(s, id).Some? && PathAt(s.db, id) != Some(EntryFile(id, stamp))
    ensures var t := Apply(s, PatchFile(id, newFilename, newMime, newData, stamp, now));
      var was := GetById(s, id).value;
      UploadShown(t, id,
                  if newFilename.Some? then CString(newFilename.value) else was.filename,
                  if newMime.Some? then newMime.value else was.mime,
                  if newData.Some? then newData.value else GetFileBlob(s, id).value.data,
                  was.createdAt, now)
  {
    hide MediaKindForMime, TextType;
    var was := GetById(s, id).value;
    CStringOfText(was.filename);
    UpdatedFileReadsBack(s, id, newFilename.GetOr(was.filename), newMime.GetOr(was.mime),
                         newData.GetOr(GetFileBlob(s, id).value.data), stamp, now);
  }

  // ----- Deletions read back -----

  lemma DeletedIsGone(s: Snapshot, id: int)
    ensures var t := Apply(s, Delete(id)); GetById(t, id).None? && GetFileBlob(t, id).None?
  {
  }

  lemma DeletedLatestIsGone(s: Snapshot, maxAge: int, now: int)
    requires Inv(s) && Accepts(s, DeleteLatest(maxAge, now))
    ensures var t := Apply(s, DeleteLatest(maxAge, now));
      var target := if s.db.next == 1 then s.db.max else s.db.next - 1;
      GetById(t, target).None? && GetFileBlob(t, target).None?
  {
  }
}
