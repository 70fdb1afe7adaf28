/**
 * `clean_object_metadata` of `DataModelObject`
 * (app/models/concerns/data_model_object.rb): the in-place clean-up of an
 * exported object hash, with the `renamed_fields` and
 * `unmapped_admin_fields` tables it uses, and the datamodel-to-Hyrax class
 * table whose `'Record'` entry it inverts.
 */
module DatamodelClean {
  import opened Wrappers
  import opened RubyValue
  import opened Exceptions

  /** `renamed_fields`: old key -> new key, in table order. */
  const RENAMED_FIELDS: seq<(string, string)> := [
    ("data_digital_data_total_file_size", "data_digital_total_file_size"),
    ("identifier_isbn_10", "identifier_isbn10"),
    ("identifier_isbn_13", "identifier_isbn13")]

  /** `unmapped_admin_fields` */
  const UNMAPPED_ADMIN_FIELDS: seq<string> := [
    "deposit_in_progress", "symplectic_review_status", "record_first_reviewed_time",
    "record_subsequent_review_time"]

  /** `data_model_to_hyrax_class_mappings[type_of_work]` */
  function HyraxClassName(typeOfWork: string): Option<string>
  {
    match typeOfWork
    case "Book" => Some("Book")
    case "Book section" => Some("BookSection")
    case "Composition" => Some("Composition")
    case "Conference item" => Some("ConferenceItem")
    case "Dataset" => Some("Dataset")
    case "Ephemera" => Some("Ephemera")
    case "Internet publication" => Some("InternetPublication")
    case "Journal article" => Some("JournalArticle")
    case "Patent" => Some("Patent")
    case "Physical object" => Some("PhysicalObject")
    case "Record" => Some("UniversalTestObject")
    case "Report" => Some("Report")
    case "Thesis" => Some("Thesis")
    case "Working paper" => Some("WorkingPaper")
    case _ => None
  }

  /** `v.first`: the first element of an array, the first character of a
      string (ActiveSupport), the first pair of a hash; nil, booleans and
      integers have no `first`. */
  function First(v: Value): (r: Result<Value, Exception>)
    ensures r.Err? <==> v.Nil? || v.Bool? || v.Int?
    ensures v.Arr? ==> r == Ok(if v.items == [] then Nil else v.items[0])
  {
    match v
    case Arr(xs) => Ok(if xs == [] then Nil else xs[0])
    case Str(s) => Ok(Str(if s == [] then "" else [s[0]]))
    case Hash(es) => Ok(if es == [] then Nil else Arr([Str(es[0].0), es[0].1]))
    case _ => Err(NoMethodError("first"))
  }

  /** One turn of `renamed_fields.each`: a present old key moves to its new
      key. */
  function RenameField(es: Entries, from: string, to: string): Entries
  {
    var v := Lookup(es, from);
    if Present(v) then Remove(Put(es, to, v), from) else es
  }

  function RenameAll(es: Entries, fields: seq<(string, string)>): Entries
    decreases |fields|
  {
    if fields == [] then es
    else
      var n := |fields| - 1;
      RenameField(RenameAll(es, fields[..n]), fields[n].0, fields[n].1)
  }

  /** One turn of `unmapped_admin_fields.each`. */
  function DropIfPresent(es: Entries, field: string): Entries
  {
    if Present(Lookup(es, field)) then Remove(es, field) else es
  }

  function DropAll(es: Entries, fields: seq<string>): Entries
    decreases |fields|
  {
    if fields == [] then es
    else
      var n := |fields| - 1;
      DropIfPresent(DropAll(es, fields[..n]), fields[n])
  }

  /** `type_of_work` on export: the class name `UniversalTestObject` stands
      for the datamodel type `Record`. */
  function ExportTypeOfWork(v: Value): Value
  {
    if v == Str("UniversalTestObject") then Str("Record") else v
  }

  function WithRecordType(es: Entries): Entries
  {
    var v := Lookup(es, "type_of_work");
    if v == Str("UniversalTestObject") then Put(es, "type_of_work", ExportTypeOfWork(v)) else es
  }

  /** The hash `clean_object_metadata` leaves, or what it raises. */
  function CleanedMetadata(es: Entries): (r: Result<Entries, Exception>)
    ensures r.Err? <==> First(Lookup(es, "title")).Err?
  {
    match First(Lookup(es, "title"))
    case Err(e) => Err(e)
    case Ok(t) => Ok(WithRecordType(Staged(es, t)))
  }

  /** The hash after the title, renaming and deletion steps, before
      `UniversalTestObject` is rewritten. */
  function Staged(es: Entries, title: Value): Entries
  {
    DropAll(RenameAll(Put(es, "title", title), RENAMED_FIELDS), UNMAPPED_ADMIN_FIELDS)
  }

  /** `clean_object_metadata(datamodel_object, minor_version)`: cleans the
      hash in place and returns it. */
  method CleanObjectMetadata(h: RubyHash, minorVersion: string) returns (r: Result<RubyHash, Exception>)
    requires h.Valid()
    modifies h
    ensures h.Valid()
    ensures match CleanedMetadata(old(h.entries))
      case Ok(es) => r == Ok(h) && h.entries == es
      case Err(e) => r == Err(e) && h.entries == old(h.entries)
  {
    var title := First(h.Get("title"));
    if title.Err? {
      return Err(title.error);
    }
    h.Set("title", title.value);
    RenameFields(h);
    DeleteAdminFields(h);
    if h.Get("type_of_work") == Str("UniversalTestObject") {
      h.Set("type_of_work", Str("Record"));
    }
    return Ok(h);
  }

  /** `renamed_fields.each`: every present old key moves to its new key. */
  method RenameFields(h: RubyHash)
    requires h.Valid()
    modifies h
    ensures h.Valid() && h.entries == RenameAll(old(h.entries), RENAMED_FIELDS)
  {
    ghost var es := h.entries;
    assert RENAMED_FIELDS[..0] == [];
    for i := 0 to |RENAMED_FIELDS|
      invariant h.Valid()
      invariant h.entries == RenameAll(es, RENAMED_FIELDS[..i])
    {
      assert RENAMED_FIELDS[..i + 1][..i] == RENAMED_FIELDS[..i];
      var (from, to) := RENAMED_FIELDS[i];
      if Present(h.Get(from)) {
        h.Set(to, h.Get(from));
        h.Delete(from);
      }
    }
    assert RENAMED_FIELDS[..|RENAMED_FIELDS|] == RENAMED_FIELDS;
  }

  /** `unmapped_admin_fields.each`: every present admin field is deleted. */
  method DeleteAdminFields(h: RubyHash)
    requires h.Valid()
    modifies h
    ensures h.Valid() && h.entries == DropAll(old(h.entries), UNMAPPED_ADMIN_FIELDS)
  {
    ghost var es := h.entries;
    assert UNMAPPED_ADMIN_FIELDS[..0] == [];
    for i := 0 to |UNMAPPED_ADMIN_FIELDS|
      invariant h.Valid()
      invariant h.entries == DropAll(es, UNMAPPED_ADMIN_FIELDS[..i])
    {
      assert UNMAPPED_ADMIN_FIELDS[..i + 1][..i] == UNMAPPED_ADMIN_FIELDS[..i];
      var field := UNMAPPED_ADMIN_FIELDS[i];
      if Present(h.Get(field)) {
        h.Delete(field);
      }
    }
    assert UNMAPPED_ADMIN_FIELDS[..|UNMAPPED_ADMIN_FIELDS|] == UNMAPPED_ADMIN_FIELDS;
  }

  // ---------------------------------------------------------------------
  // Lemmas

  /** Only `Record` is stored under the class name `UniversalTestObject`,
      and exporting that name gives `Record` back; every other value is
      exported as it is. */
  lemma RecordRoundTrip(t: string, v: Value)
    ensures HyraxClassName(t) == Some("UniversalTestObject") <==> t == "Record"
    ensures ExportTypeOfWork(Str("UniversalTestObject")) == Str("Record")
    ensures v != Str("UniversalTestObject") ==> ExportTypeOfWork(v) == v
  {
  }

  lemma RenameFieldLookup(es: Entries, from: string, to: string, k: string)
    requires DistinctKeys(es) && from != to
    ensures DistinctKeys(RenameField(es, from, to))
    ensures Lookup(RenameField(es, from, to), k) ==
      if Present(Lookup(es, from)) then (if k == from then Nil else if k == to then Lookup(es, from) else Lookup(es, k))
      else Lookup(es, k)
    ensures HasKey(RenameField(es, from, to), k) <==>
      if Present(Lookup(es, from)) then k != from && (k == to || HasKey(es, k)) else HasKey(es, k)
  {
    var v := Lookup(es, from);
    if Present(v) {
      PutDistinct(es, to, v);
      PutLookup(es, to, v, k);
      RemoveLookup(Put(es, to, v), from, k);
      RemoveDistinct(Put(es, to, v), from);
    }
  }

  lemma DropLookup(es: Entries, field: string, k: string)
    requires DistinctKeys(es)
    ensures DistinctKeys(DropIfPresent(es, field))
    ensures Lookup(DropIfPresent(es, field), k) ==
      if k == field && Present(Lookup(es, field)) then Nil else Lookup(es, k)
    ensures HasKey(DropIfPresent(es, field), k) <==> HasKey(es, k) && !(k == field && Present(Lookup(es, field)))
  {
    if Present(Lookup(es, field)) {
      RemoveLookup(es, field, k);
      RemoveDistinct(es, field);
    }
  }

  /** The two loops over the constant tables, unrolled. */
  lemma TablesUnrolled(es: Entries)
    ensures RenameAll(es, RENAMED_FIELDS) ==
      RenameField(RenameField(RenameField(es,
        "data_digital_data_total_file_size", "data_digital_total_file_size"),
        "identifier_isbn_10", "identifier_isbn10"),
        "identifier_isbn_13", "identifier_isbn13")
    ensures DropAll(es, UNMAPPED_ADMIN_FIELDS) ==
      DropIfPresent(DropIfPresent(DropIfPresent(DropIfPresent(es,
        "deposit_in_progress"), "symplectic_review_status"), "record_first_reviewed_time"),
        "record_subsequent_review_time")
  {
    var r := RENAMED_FIELDS;
    assert r[..2] == [r[0], r[1]] && r[..2][..1] == [r[0]] && [r[0]][..0] == [];
    assert RenameAll(es, [r[0]]) == RenameField(es, r[0].0, r[0].1);
    assert RenameAll(es, r[..2]) == RenameField(RenameAll(es, [r[0]]), r[1].0, r[1].1);
    assert RenameAll(es, r) == RenameField(RenameAll(es, r[..2]), r[2].0, r[2].1);
    var a := UNMAPPED_ADMIN_FIELDS;
    assert a[..3] == [a[0], a[1], a[2]] && a[..3][..2] == [a[0], a[1]];
    assert a[..3][..2][..1] == [a[0]] && [a[0]][..0] == [];
    assert DropAll(es, [a[0]]) == DropIfPresent(es, a[0]);
    assert DropAll(es, a[..2]) == DropIfPresent(DropAll(es, [a[0]]), a[1]);
    assert DropAll(es, a[..3]) == DropIfPresent(DropAll(es, a[..2]), a[2]);
    assert DropAll(es, a) == DropIfPresent(DropAll(es, a[..3]), a[3]);
  }

  /** The old key of a renamed field, given its new key. */
  function RenamedFrom(k: string): Option<string>
  {
    if k == "data_digital_total_file_size" then Some("data_digital_data_total_file_size")
    else if k == "identifier_isbn10" then Some("identifier_isbn_10")
    else if k == "identifier_isbn13" then Some("identifier_isbn_13")
    else None
  }

  predicate IsOldName(k: string)
  {
    k == "data_digital_data_total_file_size" || k == "identifier_isbn_10" || k == "identifier_isbn_13"
  }

  predicate IsAdminField(k: string)
  {
    k == "deposit_in_progress" || k == "symplectic_review_status" ||
    k == "record_first_reviewed_time" || k == "record_subsequent_review_time"
  }

  /** The renames, key by key. */
  lemma RenamedLookup(es: Entries, k: string)
    requires DistinctKeys(es)
    ensures var r := RenameAll(es, RENAMED_FIELDS);
      DistinctKeys(r) &&
      (IsOldName(k) ==>
         (HasKey(r, k) <==> HasKey(es, k) && !Present(Lookup(es, k))) &&
         Lookup(r, k) == if Present(Lookup(es, k)) then Nil else Lookup(es, k)) &&
      (RenamedFrom(k).Some? ==>
         var f := RenamedFrom(k).value;
         (HasKey(r, k) <==> HasKey(es, k) || Present(Lookup(es, f))) &&
         Lookup(r, k) == if Present(Lookup(es, f)) then Lookup(es, f) else Lookup(es, k)) &&
      (!IsOldName(k) && RenamedFrom(k).None? ==> (HasKey(r, k) <==> HasKey(es, k)) && Lookup(r, k) == Lookup(es, k))
  {
    TablesUnrolled(es);
    var f1, t1 := "data_digital_data_total_file_size", "data_digital_total_file_size";
    var f2, t2 := "identifier_isbn_10", "identifier_isbn10";
    var f3, t3 := "identifier_isbn_13", "identifier_isbn13";
    var e1 := RenameField(es, f1, t1);
    var e2 := RenameField(e1, f2, t2);
    RenameFieldLookup(es, f1, t1, k);
    RenameFieldLookup(es, f1, t1, f2);
    RenameFieldLookup(es, f1, t1, f3);
    RenameFieldLookup(e1, f2, t2, k);
    RenameFieldLookup(e1, f2, t2, f3);
    RenameFieldLookup(e2, f3, t3, k);
  }

  /** The admin deletions, key by key. */
  lemma DroppedLookup(es: Entries, k: string)
    requires DistinctKeys(es)
    ensures var r := DropAll(es, UNMAPPED_ADMIN_FIELDS);
      DistinctKeys(r) &&
      (IsAdminField(k) ==>
         (HasKey(r, k) <==> HasKey(es, k) && !Present(Lookup(es, k))) &&
         Lookup(r, k) == if Present(Lookup(es, k)) then Nil else Lookup(es, k)) &&
      (!IsAdminField(k) ==> (HasKey(r, k) <==> HasKey(es, k)) && Lookup(r, k) == Lookup(es, k))
  {
    TablesUnrolled(es);
    var e1 := DropIfPresent(es, "deposit_in_progress");
    var e2 := DropIfPresent(e1, "symplectic_review_status");
    var e3 := DropIfPresent(e2, "record_first_reviewed_time");
    DropLookup(es, "deposit_in_progress", k);
    DropLookup(e1, "symplectic_review_status", k);
    DropLookup(e2, "record_first_reviewed_time", k);
    DropLookup(e3, "record_subsequent_review_time", k);
  }

  lemma StagedLookup(es: Entries, t: Value, k: string)
    requires DistinctKeys(es)
    ensures var r := Staged(es, t);
      DistinctKeys(r) &&
      (k == "title" ==> HasKey(r, k) && Lookup(r, k) == t) &&
      (IsOldName(k) ==>
         (HasKey(r, k) <==> HasKey(es, k) && !Present(Lookup(es, k))) &&
         Lookup(r, k) == if Present(Lookup(es, k)) then Nil else Lookup(es, k)) &&
      (RenamedFrom(k).Some? ==>
         var f := RenamedFrom(k).value;
         (HasKey(r, k) <==> HasKey(es, k) || Present(Lookup(es, f))) &&
         Lookup(r, k) == if Present(Lookup(es, f)) then Lookup(es, f) else Lookup(es, k)) &&
      (IsAdminField(k) ==>
         (HasKey(r, k) <==> HasKey(es, k) && !Present(Lookup(es, k))) &&
         Lookup(r, k) == if Present(Lookup(es, k)) then Nil else Lookup(es, k)) &&
      (k != "title" && !IsOldName(k) && RenamedFrom(k).None? && !IsAdminField(k) ==>
         (HasKey(r, k) <==> HasKey(es, k)) && Lookup(r, k) == Lookup(es, k))
  {
    var e1 := Put(es, "title", t);
    PutDistinct(es, "title", t);
    var e2 := RenameAll(e1, RENAMED_FIELDS);
    PutLookup(es, "title", t, k);
    RenamedLookup(e1, k);
    if RenamedFrom(k).Some? {
      PutLookup(es, "title", t, RenamedFrom(k).value);
    }
    DroppedLookup(e2, k);
  }

  /** `UniversalTestObject` becomes `Record`; no other key changes. */
  lemma WithRecordTypeLookup(es: Entries, k: string)
    requires DistinctKeys(es)
    ensures var r := WithRecordType(es);
      DistinctKeys(r) && (HasKey(r, k) <==> HasKey(es, k)) &&
      Lookup(r, k) == if k == "type_of_work" then ExportTypeOfWork(Lookup(es, k)) else Lookup(es, k)
  {
    if Lookup(es, "type_of_work") == Str("UniversalTestObject") {
      PutLookup(es, "type_of_work", Str("Record"), k);
      PutDistinct(es, "type_of_work", Str("Record"));
      assert HasKey(es, "type_of_work");
    }
  }

  /** What `clean_object_metadata` leaves under each key: the title's first
      element; a present old key moved to its new key; no present admin
      field; `Record` for `UniversalTestObject`; every other key as it was. */
  lemma CleanedMetadataLookup(es: Entries, k: string)
    requires DistinctKeys(es) && CleanedMetadata(es).Ok?
    ensures var r := CleanedMetadata(es).value;
      DistinctKeys(r) &&
      (k == "title" ==> HasKey(r, k) && Lookup(r, k) == First(Lookup(es, k)).value) &&
      (IsOldName(k) ==>
         (HasKey(r, k) <==> HasKey(es, k) && !Present(Lookup(es, k))) &&
         Lookup(r, k) == if Present(Lookup(es, k)) then Nil else Lookup(es, k)) &&
      (RenamedFrom(k).Some? ==>
         var f := RenamedFrom(k).value;
         (HasKey(r, k) <==> HasKey(es, k) || Present(Lookup(es, f))) &&
         Lookup(r, k) == if Present(Lookup(es, f)) then Lookup(es, f) else Lookup(es, k)) &&
      (IsAdminField(k) ==>
         (HasKey(r, k) <==> HasKey(es, k) && !Present(Lookup(es, k))) &&
         Lookup(r, k) == if Present(Lookup(es, k)) then Nil else Lookup(es, k)) &&
      (k == "type_of_work" ==> (HasKey(r, k) <==> HasKey(es, k)) && Lookup(r, k) == ExportTypeOfWork(Lookup(es, k))) &&
      (k != "title" && k != "type_of_work" && !IsOldName(k) && RenamedFrom(k).None? && !IsAdminField(k) ==>
         (HasKey(r, k) <==> HasKey(es, k)) && Lookup(r, k) == Lookup(es, k))
  {
    var t := First(Lookup(es, "title")).value;
    StagedLookup(es, t, k);
    StagedLookup(es, t, "type_of_work");
    WithRecordTypeLookup(Staged(es, t), k);
  }
}
