/**
 * The state-changing part of `ORA::DPS` (lib/ora/dps.rb): `parse_binary_files`,
 * `remove_deleted_files` and `save`, as methods on the abstract Fedora store,
 * each proved against the functions of DpsNaming, DpsSyncSpec and DpsCommit.
 */
module DpsEngine {
  import opened Wrappers
  import opened RubyValue
  import opened Exceptions
  import opened DpsNaming
  import opened Fedora
  import opened DpsSyncSpec
  import opened DpsCommit

  /** `parse_binary_files(ora_object)`: one entry per file set, in order; the
      first file set whose digest cannot be sharded raises. */
  method ParseBinaryFiles(c: DpsConfig, fss: seq<FileSetRecord>) returns (r: Result<seq<BinaryFile>, Exception>)
    ensures r == ParseAll(c, fss)
  {
    var files: seq<BinaryFile> := [];
    assert fss[..0] == [];
    for i := 0 to |fss|
      invariant ParseAll(c, fss[..i]) == Ok(files)
    {
      ParseAllSnoc(c, fss, i);
      var f := ParseFileSet(c, fss[i]);
      if f.Err? {
        ParseAllStops(c, fss, i + 1);
        return Err(f.error);
      }
      files := files + [f.value];
    }
    assert fss[..|fss|] == fss;
    return Ok(files);
  }

  /** `remove_deleted_files`: deletes, inside the transaction, every archived
      binary that is no longer a file set of the object, and returns them. */
  method RemoveDeletedFiles(store: Store, uuid: string, files: seq<BinaryFile>, ocflFiles: seq<string>)
    returns (r: Result<seq<string>, Exception>)
    requires store.Valid() && store.tx == Open && uuid in store.staged
    modifies store`staged
    ensures store.Valid()
    ensures var toDelete := ListMinus(ocflFiles, IdList(files));
      match DeleteAll(old(store.staged)[uuid], toDelete, store.rejected)
      case Ok(m) => r == Ok(toDelete) && store.staged == old(store.staged)[uuid := m]
      case Err(e) => r == Err(e)
  {
    var toDelete := ListMinus(ocflFiles, IdList(files));
    ghost var m0 := store.staged[uuid];
    assert toDelete[..0] == [];
    for i := 0 to |toDelete|
      invariant store.Valid()
      invariant DeleteAll(m0, toDelete[..i], store.rejected).Ok?
      invariant store.staged == old(store.staged)[uuid := DeleteAll(m0, toDelete[..i], store.rejected).value]
    {
      ghost var before := DeleteAll(m0, toDelete[..i], store.rejected).value;
      assert toDelete[..i + 1][..i] == toDelete[..i];
      assert store.staged[uuid] == before;
      var ok := store.Delete(uuid, toDelete[i]);
      if !ok {
        assert DeleteAll(m0, toDelete[..i + 1], store.rejected).Err?;
        DeleteAllStops(m0, toDelete, store.rejected, i + 1);
        return Err(StoreError("delete"));
      }
      assert DeleteAll(m0, toDelete[..i + 1], store.rejected) == Ok(before - {toDelete[i]});
      UpdateTwice(old(store.staged), uuid, before, before - {toDelete[i]});
    }
    assert toDelete[..|toDelete|] == toDelete;
    return Ok(toDelete);
  }

  /** Once the delete loop fails, the rest of it does not matter. */
  lemma {:induction false} DeleteAllStops(m: map<string, Payload>, xs: seq<string>, rejected: set<string>, k: nat)
    requires k <= |xs| && DeleteAll(m, xs[..k], rejected).Err?
    ensures DeleteAll(m, xs, rejected) == DeleteAll(m, xs[..k], rejected)
    decreases |xs| - k
  {
    if k < |xs| {
      assert xs[..k + 1][..k] == xs[..k];
      DeleteAllStops(m, xs, rejected, k + 1);
    } else {
      assert xs[..k] == xs;
    }
  }

  lemma {:induction false} UploadAllStops(m: map<string, Payload>, files: seq<BinaryFile>, fss: seq<FileSetRecord>,
                                          ocfl: seq<string>, u: bool, disk: set<string>, rejected: set<string>, k: nat)
    requires |files| == |fss| && k <= |files|
    requires UploadAll(m, files[..k], fss[..k], ocfl, u, disk, rejected).Err?
    ensures UploadAll(m, files, fss, ocfl, u, disk, rejected) == UploadAll(m, files[..k], fss[..k], ocfl, u, disk, rejected)
    decreases |files| - k
  {
    if k < |files| {
      assert files[..k + 1][..k] == files[..k] && fss[..k + 1][..k] == fss[..k];
      UploadAllStops(m, files, fss, ocfl, u, disk, rejected, k + 1);
    } else {
      assert files[..k] == files && fss[..k] == fss;
    }
  }

  /** The URI of the archival container of `uuid`. */
  function ContainerUri(d: Dps, uuid: string): string
  {
    d.base + "/" + uuid
  }

  /** `get_ocfl_binary_files(ocfl_object)` against the store. */
  method GetOcflBinaryFiles(d: Dps, store: Store, uuid: string) returns (ocfl: seq<string>)
    requires store.Valid()
    ensures (set x | x in ocfl) == ArchivedBinaries(uuid, store.committed)
  {
    var present := store.Exists(uuid);
    var children: seq<string> := [];
    if present {
      var names := store.Children(uuid);
      children := seq(|names|, i requires 0 <= i < |names| => ContainerUri(d, uuid) + "/" + names[i]);
      assert ChildNames(children) == names by {
        forall i | 0 <= i < |names| ensures ChildNames(children)[i] == names[i] {
          assert names[i] in store.committed[uuid];
          assert SimpleName(names[i]);
          LastSegmentOfChild(ContainerUri(d, uuid), names[i]);
        }
      }
    }
    ocfl := OcflBinaryFiles(uuid, present, children);
  }

  /** The first part of the begin-block of `save`: the container (created
      when absent) and the object's metadata files. */
  method WriteMetadata(obj: OraObject, store: Store) returns (r: Result<(), Exception>)
    requires store.Valid() && store.tx == Open && store.staged == store.committed
    modifies store`staged
    ensures store.Valid()
    ensures match WithMetadata(obj.id, store.committed, obj, store.rejected)
      case Ok(m) => r.Ok? && store.staged == old(store.staged)[obj.id := m]
      case Err(e) => r == Err(e)
  {
    var uuid := obj.id;
    var ok: bool;
    if !store.Exists(uuid) {
      ok := store.CreateContainer(uuid);
      if !ok {
        return Err(StoreError("create"));
      }
    }
    ok := store.Write(uuid, ObjectMetadataJsonFile(uuid), ObjectJson(uuid));
    if !ok {
      return Err(StoreError("write"));
    }
    if obj.hasPublicUrl.None? {
      return Err(NoMethodError("has_public_url"));
    }
    if Present(obj.hasPublicUrl.value) {
      ok := store.Write(uuid, PublicMetadataDataciteFile(uuid), DataciteXml(uuid));
      if !ok {
        return Err(StoreError("write"));
      }
    }
    return Ok(());
  }

  /** The upload loop of `save`: every file set not already archived (all of
      them when `update_files` is set) is written from its source. */
  method UploadBinaries(uuid: string, fss: seq<FileSetRecord>, files: seq<BinaryFile>, ocflFiles: seq<string>,
                        updateFiles: bool, disk: set<string>, store: Store) returns (r: Result<(), Exception>)
    requires store.Valid() && store.tx == Open && uuid in store.staged
    requires |files| == |fss|
    modifies store`staged
    ensures store.Valid()
    ensures match UploadAll(old(store.staged)[uuid], files, fss, ocflFiles, updateFiles, disk, store.rejected)
      case Ok(m) => r.Ok? && store.staged == old(store.staged)[uuid := m]
      case Err(e) => r == Err(e)
  {
    ghost var m0 := store.staged[uuid];
    assert files[..0] == [] && fss[..0] == [];
    for i := 0 to |files|
      invariant store.Valid() && uuid in store.staged
      invariant UploadAll(m0, files[..i], fss[..i], ocflFiles, updateFiles, disk, store.rejected)
                == Ok(store.staged[uuid])
      invariant store.staged == old(store.staged)[uuid := store.staged[uuid]]
    {
      assert files[..i + 1][..i] == files[..i] && fss[..i + 1][..i] == fss[..i];
      ghost var cur := store.staged[uuid];
      var file := files[i];
      if file.id in ocflFiles && !updateFiles {
        assert UploadAll(m0, files[..i + 1], fss[..i + 1], ocflFiles, updateFiles, disk, store.rejected) == Ok(cur);
        continue;
      }
      var source: Payload;
      if file.localPath in disk {
        source := Stream(file.localPath, file.mimeType);
      } else if fss[i].byReference {
        var path := ReferencePath(fss[i].fileFormat);
        if path.Err? {
          UploadAllStops(m0, files, fss, ocflFiles, updateFiles, disk, store.rejected, i + 1);
          return Err(path.error);
        }
        source := Stream(path.value, "application/octet-stream");
      } else {
        source := Content(file.id);
      }
      var ok := store.Write(uuid, file.id, source);
      if !ok {
        UploadAllStops(m0, files, fss, ocflFiles, updateFiles, disk, store.rejected, i + 1);
        return Err(StoreError("write"));
      }
      assert UploadAll(m0, files[..i + 1], fss[..i + 1], ocflFiles, updateFiles, disk, store.rejected)
             == Ok(cur[file.id := source]);
      UpdateTwice(old(store.staged), uuid, cur, cur[file.id := source]);
    }
    assert files[..|files|] == files && fss[..|files|] == fss;
    return Ok(());
  }

  /** The begin-block of `save`: everything written inside the transaction.
      `ocfl` is the list of binaries found archived. */
  method Sync(d: Dps, obj: OraObject, files: seq<BinaryFile>, updateFiles: bool, disk: set<string>, store: Store)
    returns (r: Result<seq<string>, Exception>, ghost ocfl: seq<string>)
    requires store.Valid() && store.tx == Open && store.staged == store.committed
    requires |files| == |obj.fileSets|
    modifies store`staged
    ensures store.Valid()
    ensures (set x | x in ocfl) == ArchivedBinaries(obj.id, store.committed)
    ensures match DpsSyncSpec.Sync(store.committed, obj, files, ocfl, updateFiles, disk, store.rejected)
      case Ok(e) => r == Ok(e.deleted) && store.staged == old(store.staged)[obj.id := e.container]
      case Err(e) => r == Err(e)
  {
    ghost var a, rejected := store.committed, store.rejected;
    var ocflFiles := GetOcflBinaryFiles(d, store, obj.id);
    ocfl := ocflFiles;
    var w := WriteMetadata(obj, store);
    ghost var m2 := WithMetadata(obj.id, a, obj, rejected);
    if w.Err? {
      return Err(w.error), ocfl;
    }
    assert store.staged == old(store.staged)[obj.id := m2.value];
    var u := UploadBinaries(obj.id, obj.fileSets, files, ocflFiles, updateFiles, disk, store);
    ghost var m3 := UploadAll(m2.value, files, obj.fileSets, ocfl, updateFiles, disk, rejected);
    if u.Err? {
      assert m3.Err?;
      return Err(u.error), ocfl;
    }
    assert store.staged == old(store.staged)[obj.id := m3.value];
    ghost var m4 := DeleteAll(m3.value, ListMinus(ocfl, IdList(files)), rejected);
    r := RemoveDeletedFiles(store, obj.id, files, ocflFiles);
    if m4.Ok? {
      UpdateTwice(old(store.staged), obj.id, m3.value, m4.value);
    }
  }

  lemma UpdateTwice<K, V>(m: map<K, V>, k: K, a: V, b: V)
    ensures m[k := a][k := b] == m[k := b]
  {
  }

  /** What `save` returns, or the exception that escapes it. */
  datatype SaveOutcome = Returned(success: bool) | Raised(error: Exception)

  /** The begin-block of `save` and its `else` clause, as written: an error
      while syncing is rolled back and gives false; the commit runs in the
      `else` clause, outside the `rescue`, so whatever it raises escapes. */
  method SaveTransaction(d: Dps, obj: OraObject, files: seq<BinaryFile>, updateFiles: bool, disk: set<string>, store: Store)
    returns (out: SaveOutcome, ghost ocfl: seq<string>)
    requires store.Valid() && |files| == |obj.fileSets|
    modifies store
    ensures store.Valid()
    ensures store.rejected == old(store.rejected) && store.commitRaises == old(store.commitRaises)
    ensures (set x | x in ocfl) == ArchivedBinaries(obj.id, old(store.committed))
    ensures var s := DpsSyncSpec.Sync(old(store.committed), obj, files, ocfl, updateFiles, disk, old(store.rejected));
      var run := AsWrittenCommit(old(store.commitRaises), old(store.replies), 0);
      && (s.Err? ==>
            out == Returned(false) && store.committed == old(store.committed) &&
            store.tx == RolledBack && store.replies == old(store.replies))
      && (s.Ok? ==>
          out == (if run.raised.None? then Returned(true) else Raised(run.raised.value)) &&
          store.committed == (if run.raised.None? then old(store.committed)[obj.id := s.value.container]
                              else old(store.committed)) &&
          store.replies == old(store.replies)[run.polls..])
  {
    store.Begin();
    ghost var c0, replies0 := store.committed, store.replies;
    var r;
    r, ocfl := Sync(d, obj, files, updateFiles, disk, store);
    ghost var s := DpsSyncSpec.Sync(c0, obj, files, ocfl, updateFiles, disk, store.rejected);
    ghost var st := store.staged;
    if r.Err? {
      store.Rollback();
      return Returned(false), ocfl;
    }
    assert s.Ok? && st == c0[obj.id := s.value.container];
    assert store.replies == replies0 && store.tx == Open;
    var raised := CommitTransactionAsWritten(store, 0);
    if raised.Some? {
      return Raised(raised.value), ocfl;
    }
    assert store.committed == st;
    return Returned(true), ocfl;
  }

  /** `save(uuid, update_files:)` as written: a `parse_binary_files` error
      escapes before any transaction exists; the rest is `SaveTransaction`. */
  method Save(d: Dps, obj: OraObject, updateFiles: bool, disk: set<string>, store: Store)
    returns (out: SaveOutcome, ghost files: seq<BinaryFile>, ghost ocfl: seq<string>)
    requires store.Valid()
    modifies store
    ensures store.Valid()
    ensures store.rejected == old(store.rejected) && store.commitRaises == old(store.commitRaises)
    ensures ParseAll(d.config, obj.fileSets).Err? ==>
      out == Raised(ParseAll(d.config, obj.fileSets).error) &&
      store.committed == old(store.committed) && store.staged == old(store.staged) &&
      store.tx == old(store.tx) && store.replies == old(store.replies)
    ensures ParseAll(d.config, obj.fileSets).Ok? ==>
      files == ParseAll(d.config, obj.fileSets).value && |files| == |obj.fileSets| &&
      (set x | x in ocfl) == ArchivedBinaries(obj.id, old(store.committed)) &&
      var s := DpsSyncSpec.Sync(old(store.committed), obj, files, ocfl, updateFiles, disk, old(store.rejected));
      var run := AsWrittenCommit(old(store.commitRaises), old(store.replies), 0);
      && (s.Err? ==>
            out == Returned(false) && store.committed == old(store.committed) &&
            store.tx == RolledBack && store.replies == old(store.replies))
      && (s.Ok? ==>
            out == (if run.raised.None? then Returned(true) else Raised(run.raised.value)) &&
            store.committed == (if run.raised.None? then old(store.committed)[obj.id := s.value.container]
                                else old(store.committed)) &&
            store.replies == old(store.replies)[run.polls..])
  {
    files, ocfl := [], [];
    var parsed := ParseBinaryFiles(d.config, obj.fileSets);
    if parsed.Err? {
      return Raised(parsed.error), files, ocfl;
    }
    ParseAllEntries(d.config, obj.fileSets);
    files := parsed.value;
    out, ocfl := SaveTransaction(d, obj, parsed.value, updateFiles, disk, store);
  }

  /** The begin-block of `save` with the corrected poller: once the
      transaction is opened it ends committed or rolled back. */
  method SaveTransactionCorrected(d: Dps, obj: OraObject, files: seq<BinaryFile>, updateFiles: bool, disk: set<string>, store: Store)
    returns (out: SaveOutcome, ghost ocfl: seq<string>)
    requires store.Valid() && |files| == |obj.fileSets|
    modifies store
    ensures store.Valid()
    ensures store.rejected == old(store.rejected) && store.commitRaises == old(store.commitRaises)
    ensures (set x | x in ocfl) == ArchivedBinaries(obj.id, old(store.committed))
    ensures var s := DpsSyncSpec.Sync(old(store.committed), obj, files, ocfl, updateFiles, disk, old(store.rejected));
      var run := Commit(old(store.commitRaises), old(store.replies), 0);
      && (s.Err? ==>
            out == Returned(false) && store.committed == old(store.committed) &&
            store.tx == RolledBack && store.replies == old(store.replies))
      && (s.Ok? ==>
          out == (if run.raised.None? then Returned(true) else Raised(run.raised.value)) &&
          store.committed == (if run.raised.None? then old(store.committed)[obj.id := s.value.container]
                              else old(store.committed)) &&
          store.tx == (if run.raised.None? then Committed else RolledBack) &&
          store.replies == old(store.replies)[run.polls..])
  {
    store.Begin();
    ghost var c0, replies0 := store.committed, store.replies;
    var r;
    r, ocfl := Sync(d, obj, files, updateFiles, disk, store);
    ghost var s := DpsSyncSpec.Sync(c0, obj, files, ocfl, updateFiles, disk, store.rejected);
    ghost var st := store.staged;
    if r.Err? {
      store.Rollback();
      return Returned(false), ocfl;
    }
    assert s.Ok? && st == c0[obj.id := s.value.container];
    assert store.replies == replies0 && store.tx == Open;
    var raised := CommitTransaction(store);
    if raised.Some? {
      return Raised(raised.value), ocfl;
    }
    assert store.committed == st;
    return Returned(true), ocfl;
  }

  /** `save` with the corrected poller: the archive either takes the whole
      run or is left as it was. */
  method SaveCorrected(d: Dps, obj: OraObject, updateFiles: bool, disk: set<string>, store: Store)
    returns (out: SaveOutcome, ghost files: seq<BinaryFile>, ghost ocfl: seq<string>)
    requires store.Valid()
    modifies store
    ensures store.Valid()
    ensures store.rejected == old(store.rejected) && store.commitRaises == old(store.commitRaises)
    ensures ParseAll(d.config, obj.fileSets).Err? ==>
      out == Raised(ParseAll(d.config, obj.fileSets).error) &&
      store.committed == old(store.committed) && store.staged == old(store.staged) &&
      store.tx == old(store.tx) && store.replies == old(store.replies)
    ensures ParseAll(d.config, obj.fileSets).Ok? ==>
      files == ParseAll(d.config, obj.fileSets).value && |files| == |obj.fileSets| &&
      (set x | x in ocfl) == ArchivedBinaries(obj.id, old(store.committed)) &&
      var s := DpsSyncSpec.Sync(old(store.committed), obj, files, ocfl, updateFiles, disk, old(store.rejected));
      var run := Commit(old(store.commitRaises), old(store.replies), 0);
      && (s.Err? ==>
            out == Returned(false) && store.committed == old(store.committed) &&
            store.tx == RolledBack && store.replies == old(store.replies))
      && (s.Ok? ==>
            out == (if run.raised.None? then Returned(true) else Raised(run.raised.value)) &&
            store.committed == (if run.raised.None? then old(store.committed)[obj.id := s.value.container]
                                else old(store.committed)) &&
            store.tx == (if run.raised.None? then Committed else RolledBack) &&
            store.replies == old(store.replies)[run.polls..])
    ensures out == Returned(true) <==>
      ParseAll(d.config, obj.fileSets).Ok? && |files| == |obj.fileSets| &&
      DpsSyncSpec.Sync(old(store.committed), obj, files, ocfl, updateFiles, disk, old(store.rejected)).Ok? &&
      Commit(old(store.commitRaises), old(store.replies), 0).raised.None?
    ensures ParseAll(d.config, obj.fileSets).Ok? && out != Returned(true) ==> store.tx == RolledBack
  {
    files, ocfl := [], [];
    var parsed := ParseBinaryFiles(d.config, obj.fileSets);
    if parsed.Err? {
      return Raised(parsed.error), files, ocfl;
    }
    ParseAllEntries(d.config, obj.fileSets);
    files := parsed.value;
    out, ocfl := SaveTransactionCorrected(d, obj, parsed.value, updateFiles, disk, store);
  }
}
