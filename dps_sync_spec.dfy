/**
 * What one run of the begin-block of `ORA::DPS#save` (lib/ora/dps.rb) does
 * to the archival container, as a function of the archive it starts from,
 * the object, the binaries already archived, and the store's refusals; and
 * what that implies: after a run with no error the container holds exactly
 * the object's binaries besides the metadata files, a second run uploads
 * nothing, and so on.
 */
module DpsSyncSpec {
  import opened Wrappers
  import opened RubyValue
  import opened Exceptions
  import opened DpsNaming
  import opened Fedora

  /** What `OraBase.find(uuid)` yields, as far as `save` reads it. */
  datatype OraObject = OraObject(
    id: string,
    /** `admin_information.first.has_public_url`; None when there is no
        admin information record. */
    hasPublicUrl: Option<Value>,
    fileSets: seq<FileSetRecord>)

  /** `files.map { |fs| fs[:id] }` */
  function IdList(files: seq<BinaryFile>): (r: seq<string>)
    ensures |r| == |files|
    ensures forall i :: 0 <= i < |files| ==> r[i] == files[i].id
  {
    if files == [] then [] else [files[0].id] + IdList(files[1..])
  }

  /** The store accepts a write or delete of this name. */
  predicate Writable(name: string, rejected: set<string>)
  {
    SimpleName(name) && name !in rejected
  }

  /** `next if ocfl_files.include?(file[:id]) and not update_files` */
  predicate Skipped(f: BinaryFile, ocfl: seq<string>, updateFiles: bool)
  {
    f.id in ocfl && !updateFiles
  }

  /** What a binary is uploaded from: the pair-tree path when it is on disk
      (with the file's mime type); else, for a file by reference, the path
      named in its `file_format` (as application/octet-stream); else the
      content of the original file. */
  function BinarySource(f: BinaryFile, fs: FileSetRecord, disk: set<string>): (r: Result<Payload, Exception>)
    ensures f.localPath in disk ==> r == Ok(Stream(f.localPath, f.mimeType))
    ensures f.localPath !in disk && fs.byReference ==>
      (r.Ok? <==> ReferencePath(fs.fileFormat).Ok?) &&
      (r.Ok? ==> r.value == Stream(ReferencePath(fs.fileFormat).value, "application/octet-stream"))
    ensures f.localPath !in disk && !fs.byReference ==> r == Ok(Content(f.id))
  {
    if f.localPath in disk then Ok(Stream(f.localPath, f.mimeType))
    else if fs.byReference then
      match ReferencePath(fs.fileFormat)
      case Ok(p) => Ok(Stream(p, "application/octet-stream"))
      case Err(e) => Err(e)
    else Ok(Content(f.id))
  }

  /** One turn of the upload loop. */
  function UploadOne(m: map<string, Payload>, f: BinaryFile, fs: FileSetRecord, ocfl: seq<string>,
                     updateFiles: bool, disk: set<string>, rejected: set<string>): Result<map<string, Payload>, Exception>
  {
    if Skipped(f, ocfl, updateFiles) then Ok(m)
    else match BinarySource(f, fs, disk)
      case Err(e) => Err(e)
      case Ok(p) => if Writable(f.id, rejected) then Ok(m[f.id := p]) else Err(StoreError("write"))
  }

  /** The upload loop over the first |files| file sets, stopping at the
      first error. */
  function UploadAll(m: map<string, Payload>, files: seq<BinaryFile>, fss: seq<FileSetRecord>, ocfl: seq<string>,
                     updateFiles: bool, disk: set<string>, rejected: set<string>): Result<map<string, Payload>, Exception>
    requires |files| == |fss|
    decreases |files|
  {
    if files == [] then Ok(m)
    else
      var n := |files| - 1;
      match UploadAll(m, files[..n], fss[..n], ocfl, updateFiles, disk, rejected)
      case Err(e) => Err(e)
      case Ok(m') => UploadOne(m', files[n], fss[n], ocfl, updateFiles, disk, rejected)
  }

  /** The ids the loop uploads. */
  function Uploaded(files: seq<BinaryFile>, ocfl: seq<string>, updateFiles: bool): set<string>
  {
    set i | 0 <= i < |files| && !Skipped(files[i], ocfl, updateFiles) :: files[i].id
  }

  /** The delete loop of `remove_deleted_files`, stopping at the first error. */
  function DeleteAll(m: map<string, Payload>, xs: seq<string>, rejected: set<string>): Result<map<string, Payload>, Exception>
    decreases |xs|
  {
    if xs == [] then Ok(m)
    else
      var n := |xs| - 1;
      match DeleteAll(m, xs[..n], rejected)
      case Err(e) => Err(e)
      case Ok(m') => if xs[n] in m' && xs[n] !in rejected then Ok(m' - {xs[n]}) else Err(StoreError("delete"))
  }

  datatype SyncEffect = SyncEffect(container: map<string, Payload>, deleted: seq<string>)

  /** The binaries of the container before the run, as `get_ocfl_binary_files`
      sees them (for a store whose names are single path segments). */
  function ArchivedBinaries(uuid: string, a: Archive): set<string>
  {
    if uuid in a then a[uuid].Keys - {ObjectMetadataJsonFile(uuid), PublicMetadataDataciteFile(uuid)} else {}
  }

  /** The container reached when the metadata has been written. */
  function WithMetadata(uuid: string, a: Archive, obj: OraObject, rejected: set<string>): Result<map<string, Payload>, Exception>
  {
    if uuid !in a && uuid in rejected then Err(StoreError("create"))
    else
      var m0 := if uuid in a then a[uuid] else map[];
      var json := ObjectMetadataJsonFile(uuid);
      if !Writable(json, rejected) then Err(StoreError("write"))
      else
        var m1 := m0[json := ObjectJson(uuid)];
        match obj.hasPublicUrl
        case None => Err(NoMethodError("has_public_url"))
        case Some(v) =>
          var datacite := PublicMetadataDataciteFile(uuid);
          if !Present(v) then Ok(m1)
          else if Writable(datacite, rejected) then Ok(m1[datacite := DataciteXml(uuid)])
          else Err(StoreError("write"))
  }

  /** The whole begin-block: create the container if absent, write the
      metadata, upload, delete; `ocfl` is the list of archived binaries. */
  function Sync(a: Archive, obj: OraObject, files: seq<BinaryFile>, ocfl: seq<string>, updateFiles: bool,
                disk: set<string>, rejected: set<string>): Result<SyncEffect, Exception>
    requires |files| == |obj.fileSets|
  {
    match WithMetadata(obj.id, a, obj, rejected)
    case Err(e) => Err(e)
    case Ok(m2) =>
      match UploadAll(m2, files, obj.fileSets, ocfl, updateFiles, disk, rejected)
      case Err(e) => Err(e)
      case Ok(m3) =>
        var toDelete := ListMinus(ocfl, IdList(files));
        match DeleteAll(m3, toDelete, rejected)
        case Err(e) => Err(e)
        case Ok(m4) => Ok(SyncEffect(m4, toDelete))
  }

  // ---------------------------------------------------------------------
  // Lemmas

  lemma {:induction false} UploadAllEffect(m: map<string, Payload>, files: seq<BinaryFile>, fss: seq<FileSetRecord>,
                                           ocfl: seq<string>, u: bool, disk: set<string>, rejected: set<string>)
    requires |files| == |fss|
    requires UploadAll(m, files, fss, ocfl, u, disk, rejected).Ok?
    ensures var m' := UploadAll(m, files, fss, ocfl, u, disk, rejected).value;
      && m'.Keys == m.Keys + Uploaded(files, ocfl, u)
      && forall k :: k in m && k !in Uploaded(files, ocfl, u) ==> m'[k] == m[k]
    decreases |files|
  {
    if files != [] {
      var n := |files| - 1;
      UploadAllEffect(m, files[..n], fss[..n], ocfl, u, disk, rejected);
      var mid := UploadAll(m, files[..n], fss[..n], ocfl, u, disk, rejected).value;
      assert UploadAll(m, files, fss, ocfl, u, disk, rejected) == UploadOne(mid, files[n], fss[n], ocfl, u, disk, rejected);
      UploadOneEffect(mid, files[n], fss[n], ocfl, u, disk, rejected);
      UploadedSnoc(files, ocfl, u);
    }
  }

  lemma UploadOneEffect(m: map<string, Payload>, f: BinaryFile, fs: FileSetRecord, ocfl: seq<string>,
                        u: bool, disk: set<string>, rejected: set<string>)
    requires UploadOne(m, f, fs, ocfl, u, disk, rejected).Ok?
    ensures var m' := UploadOne(m, f, fs, ocfl, u, disk, rejected).value;
      && m'.Keys == m.Keys + (if Skipped(f, ocfl, u) then {} else {f.id})
      && forall k :: k in m && (Skipped(f, ocfl, u) || k != f.id) ==> m'[k] == m[k]
  {
  }

  lemma UploadedSnoc(files: seq<BinaryFile>, ocfl: seq<string>, u: bool)
    requires files != []
    ensures var n := |files| - 1;
      Uploaded(files, ocfl, u) == Uploaded(files[..n], ocfl, u) + (if Skipped(files[n], ocfl, u) then {} else {files[n].id})
  {
    var n := |files| - 1;
    assert forall i :: 0 <= i < n ==> files[..n][i] == files[i];
  }

  /** With distinct ids, every uploaded binary holds what its source gives. */
  lemma {:induction false} UploadAllPayload(m: map<string, Payload>, files: seq<BinaryFile>, fss: seq<FileSetRecord>,
                                            ocfl: seq<string>, u: bool, disk: set<string>, rejected: set<string>, j: nat)
    requires |files| == |fss| && j < |files|
    requires forall i, k :: 0 <= i < k < |files| ==> files[i].id != files[k].id
    requires UploadAll(m, files, fss, ocfl, u, disk, rejected).Ok?
    requires !Skipped(files[j], ocfl, u)
    ensures BinarySource(files[j], fss[j], disk).Ok?
    ensures files[j].id in UploadAll(m, files, fss, ocfl, u, disk, rejected).value
    ensures UploadAll(m, files, fss, ocfl, u, disk, rejected).value[files[j].id] == BinarySource(files[j], fss[j], disk).value
    decreases |files|
  {
    var n := |files| - 1;
    if j < n {
      UploadAllPayload(m, files[..n], fss[..n], ocfl, u, disk, rejected, j);
    }
  }

  lemma {:induction false} DeleteAllEffect(m: map<string, Payload>, xs: seq<string>, rejected: set<string>)
    requires DeleteAll(m, xs, rejected).Ok?
    ensures DeleteAll(m, xs, rejected).value == m - (set x | x in xs)
    ensures forall x :: x in xs ==> x in m && x !in rejected
    decreases |xs|
  {
    if xs != [] {
      var n := |xs| - 1;
      DeleteAllEffect(m, xs[..n], rejected);
      assert xs == xs[..n] + [xs[n]];
      assert (set x | x in xs) == (set x | x in xs[..n]) + {xs[n]};
    }
  }

  lemma {:induction false} DeleteAllSucceeds(m: map<string, Payload>, xs: seq<string>, rejected: set<string>)
    requires forall i, j :: 0 <= i < j < |xs| ==> xs[i] != xs[j]
    requires forall x :: x in xs ==> x in m && x !in rejected
    ensures DeleteAll(m, xs, rejected).Ok?
    decreases |xs|
  {
    if xs != [] {
      var n := |xs| - 1;
      DeleteAllSucceeds(m, xs[..n], rejected);
      DeleteAllEffect(m, xs[..n], rejected);
      assert xs[n] !in xs[..n];
    }
  }

  lemma WithMetadataKeys(uuid: string, a: Archive, obj: OraObject, rejected: set<string>)
    requires WithMetadata(uuid, a, obj, rejected).Ok?
    ensures var m := WithMetadata(uuid, a, obj, rejected).value;
      && ObjectMetadataJsonFile(uuid) in m && m[ObjectMetadataJsonFile(uuid)] == ObjectJson(uuid)
      && m.Keys - {ObjectMetadataJsonFile(uuid), PublicMetadataDataciteFile(uuid)} == ArchivedBinaries(uuid, a)
      && (Present(obj.hasPublicUrl.value) ==> m[PublicMetadataDataciteFile(uuid)] == DataciteXml(uuid))
      && (!Present(obj.hasPublicUrl.value) ==>
            (PublicMetadataDataciteFile(uuid) in m <==> uuid in a && PublicMetadataDataciteFile(uuid) in a[uuid]))
      && (uuid in a ==> forall k :: k in a[uuid] && k !in MetadataFiles(uuid) ==> m[k] == a[uuid][k])
  {
    MetadataFileNames(uuid, uuid);
  }

  lemma IdListSet(files: seq<BinaryFile>)
    ensures (set x | x in IdList(files)) == (set f | f in files :: f.id)
  {
    forall x | x in (set f | f in files :: f.id) ensures x in IdList(files) {
      var f :| f in files && f.id == x;
      var i :| 0 <= i < |files| && files[i] == f;
      assert IdList(files)[i] == x;
    }
  }

  lemma NotUploadedIsArchived(files: seq<BinaryFile>, ocfl: seq<string>, u: bool)
    ensures Uploaded(files, ocfl, u) <= (set f | f in files :: f.id)
    ensures forall f :: f in files && f.id !in Uploaded(files, ocfl, u) ==> f.id in ocfl
  {
    forall f | f in files && f.id !in Uploaded(files, ocfl, u) ensures f.id in ocfl {
      var i :| 0 <= i < |files| && files[i] == f;
    }
  }

  /** The set algebra behind SyncLeavesDesiredBinaries. */
  lemma ContainerKeys(m2: set<string>, meta: set<string>, archived: set<string>, up: set<string>, ids: set<string>,
                      m3: set<string>, del: set<string>, final: set<string>)
    requires m2 - meta == archived
    requires up <= ids && ids - up <= archived
    requires m3 == m2 + up && del == archived - ids && final == m3 - del
    ensures final - meta == ids - meta
  {
    forall x | x in ids - meta ensures x in final {
      if x !in up { assert x in archived; }
    }
    forall x | x in final - meta ensures x in ids {
      if x !in up { assert x in archived; }
    }
  }

  /** After a run with no error, the container's binaries (its files other
      than the two metadata files) are exactly the object's file sets. */
  lemma SyncLeavesDesiredBinaries(a: Archive, obj: OraObject, files: seq<BinaryFile>, ocfl: seq<string>,
                                  u: bool, disk: set<string>, rejected: set<string>)
    requires |files| == |obj.fileSets|
    requires (set x | x in ocfl) == ArchivedBinaries(obj.id, a)
    requires Sync(a, obj, files, ocfl, u, disk, rejected).Ok?
    ensures var meta := {ObjectMetadataJsonFile(obj.id), PublicMetadataDataciteFile(obj.id)};
      Sync(a, obj, files, ocfl, u, disk, rejected).value.container.Keys - meta == (set f | f in files :: f.id) - meta
  {
    var uuid := obj.id;
    var meta := {ObjectMetadataJsonFile(uuid), PublicMetadataDataciteFile(uuid)};
    WithMetadataKeys(uuid, a, obj, rejected);
    var m2 := WithMetadata(uuid, a, obj, rejected).value;
    UploadAllEffect(m2, files, obj.fileSets, ocfl, u, disk, rejected);
    var m3 := UploadAll(m2, files, obj.fileSets, ocfl, u, disk, rejected).value;
    var toDelete := ListMinus(ocfl, IdList(files));
    DeleteAllEffect(m3, toDelete, rejected);
    IdListSet(files);
    NotUploadedIsArchived(files, ocfl, u);
    var ids := set f | f in files :: f.id;
    var del := set x | x in toDelete;
    assert del == (set x | x in ocfl) - ids;
    assert ids - Uploaded(files, ocfl, u) <= (set x | x in ocfl);
    ContainerKeys(m2.Keys, meta, ArchivedBinaries(uuid, a), Uploaded(files, ocfl, u), ids, m3.Keys, del,
                  (m3 - del).Keys);
  }

  /** The metadata JSON is always (re)written, and a file named like it is
      never deleted. */
  lemma SyncWritesMetadata(a: Archive, obj: OraObject, files: seq<BinaryFile>, ocfl: seq<string>,
                           u: bool, disk: set<string>, rejected: set<string>)
    requires |files| == |obj.fileSets|
    requires (set x | x in ocfl) == ArchivedBinaries(obj.id, a)
    requires ObjectMetadataJsonFile(obj.id) !in (set f | f in files :: f.id)
    requires Sync(a, obj, files, ocfl, u, disk, rejected).Ok?
    ensures var c := Sync(a, obj, files, ocfl, u, disk, rejected).value.container;
      ObjectMetadataJsonFile(obj.id) in c && c[ObjectMetadataJsonFile(obj.id)] == ObjectJson(obj.id)
  {
    var uuid := obj.id;
    WithMetadataKeys(uuid, a, obj, rejected);
    var m2 := WithMetadata(uuid, a, obj, rejected).value;
    UploadAllEffect(m2, files, obj.fileSets, ocfl, u, disk, rejected);
    var m3 := UploadAll(m2, files, obj.fileSets, ocfl, u, disk, rejected).value;
    var toDelete := ListMinus(ocfl, IdList(files));
    DeleteAllEffect(m3, toDelete, rejected);
    assert ObjectMetadataJsonFile(uuid) !in ocfl;
  }

  /** The DataCite file is written when the object has a public URL; when it
      has none, a DataCite file archived earlier is left in place. */
  lemma SyncPublicMetadata(a: Archive, obj: OraObject, files: seq<BinaryFile>, ocfl: seq<string>,
                           u: bool, disk: set<string>, rejected: set<string>)
    requires |files| == |obj.fileSets|
    requires (set x | x in ocfl) == ArchivedBinaries(obj.id, a)
    requires PublicMetadataDataciteFile(obj.id) !in (set f | f in files :: f.id)
    requires Sync(a, obj, files, ocfl, u, disk, rejected).Ok?
    ensures obj.hasPublicUrl.Some?
    ensures var c := Sync(a, obj, files, ocfl, u, disk, rejected).value.container;
      var dc := PublicMetadataDataciteFile(obj.id);
      && (Present(obj.hasPublicUrl.value) ==> dc in c && c[dc] == DataciteXml(obj.id))
      && (!Present(obj.hasPublicUrl.value) ==> (dc in c <==> obj.id in a && dc in a[obj.id]))
  {
    var uuid := obj.id;
    WithMetadataKeys(uuid, a, obj, rejected);
    var m2 := WithMetadata(uuid, a, obj, rejected).value;
    UploadAllEffect(m2, files, obj.fileSets, ocfl, u, disk, rejected);
    var m3 := UploadAll(m2, files, obj.fileSets, ocfl, u, disk, rejected).value;
    var toDelete := ListMinus(ocfl, IdList(files));
    DeleteAllEffect(m3, toDelete, rejected);
    assert PublicMetadataDataciteFile(uuid) !in ocfl;
    assert PublicMetadataDataciteFile(uuid) !in Uploaded(files, ocfl, u);
  }

  /** Without `update_files`, a binary already archived keeps its archived
      content; with it, or for a new binary, it holds what its source gives. */
  lemma SyncUploads(a: Archive, obj: OraObject, files: seq<BinaryFile>, ocfl: seq<string>,
                    u: bool, disk: set<string>, rejected: set<string>, j: nat)
    requires |files| == |obj.fileSets| && j < |files|
    requires forall i, k :: 0 <= i < k < |files| ==> files[i].id != files[k].id
    requires (set x | x in ocfl) == ArchivedBinaries(obj.id, a)
    requires files[j].id !in MetadataFiles(obj.id)
    requires Sync(a, obj, files, ocfl, u, disk, rejected).Ok?
    ensures var c := Sync(a, obj, files, ocfl, u, disk, rejected).value.container;
      var id := files[j].id;
      && id in c
      && (Skipped(files[j], ocfl, u) ==> obj.id in a && id in a[obj.id] && c[id] == a[obj.id][id])
      && (!Skipped(files[j], ocfl, u) ==>
            BinarySource(files[j], obj.fileSets[j], disk).Ok? && c[id] == BinarySource(files[j], obj.fileSets[j], disk).value)
  {
    var uuid := obj.id;
    WithMetadataKeys(uuid, a, obj, rejected);
    var m2 := WithMetadata(uuid, a, obj, rejected).value;
    UploadAllEffect(m2, files, obj.fileSets, ocfl, u, disk, rejected);
    var m3 := UploadAll(m2, files, obj.fileSets, ocfl, u, disk, rejected).value;
    var toDelete := ListMinus(ocfl, IdList(files));
    DeleteAllEffect(m3, toDelete, rejected);
    assert IdList(files)[j] == files[j].id;
    if Skipped(files[j], ocfl, u) {
      assert files[j].id in ArchivedBinaries(uuid, a);
      assert files[j].id !in Uploaded(files, ocfl, u) by {
        forall i | 0 <= i < |files| && !Skipped(files[i], ocfl, u) ensures files[i].id != files[j].id {
          if i != j { assert files[i].id != files[j].id; }
        }
      }
    } else {
      UploadAllPayload(m2, files, obj.fileSets, ocfl, u, disk, rejected, j);
    }
  }

  /** A second run without `update_files` on what the first run left
      uploads nothing. */
  lemma ResyncUploadsNothing(a: Archive, obj: OraObject, files: seq<BinaryFile>, ocfl: seq<string>,
                             u: bool, disk: set<string>, rejected: set<string>, ocfl': seq<string>)
    requires |files| == |obj.fileSets|
    requires (set x | x in ocfl) == ArchivedBinaries(obj.id, a)
    requires forall f :: f in files ==> f.id !in MetadataFiles(obj.id)
    requires Sync(a, obj, files, ocfl, u, disk, rejected).Ok?
    requires (set x | x in ocfl') ==
      ArchivedBinaries(obj.id, a[obj.id := Sync(a, obj, files, ocfl, u, disk, rejected).value.container])
    ensures Uploaded(files, ocfl', false) == {}
  {
    SyncLeavesDesiredBinaries(a, obj, files, ocfl, u, disk, rejected);
    var c := Sync(a, obj, files, ocfl, u, disk, rejected).value.container;
    forall f | f in files ensures f.id in ocfl' {
      assert f.id in c.Keys - {ObjectMetadataJsonFile(obj.id), PublicMetadataDataciteFile(obj.id)};
    }
  }

  /** Deletion does not depend on `update_files`: what is deleted is the
      archived binaries less the object's file sets. */
  lemma SyncDeletes(a: Archive, obj: OraObject, files: seq<BinaryFile>, ocfl: seq<string>,
                    u: bool, disk: set<string>, rejected: set<string>)
    requires |files| == |obj.fileSets|
    requires Sync(a, obj, files, ocfl, u, disk, rejected).Ok?
    ensures Sync(a, obj, files, ocfl, u, disk, rejected).value.deleted == ListMinus(ocfl, IdList(files))
    ensures forall x :: x in Sync(a, obj, files, ocfl, u, disk, rejected).value.deleted <==>
      x in ocfl && forall f :: f in files ==> f.id != x
  {
    var ids := IdList(files);
    forall x ensures x in ids <==> exists f :: f in files && f.id == x {
      if x in ids {
        var i :| 0 <= i < |ids| && ids[i] == x;
        assert files[i] in files;
      }
    }
  }
}
