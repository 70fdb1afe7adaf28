/**
 * The pure part of `ORA::DPS` (lib/ora/dps.rb): configuration, the names of
 * the metadata files, the pair-tree path of a binary, the list of binaries
 * already archived, and the path of a file held by reference.
 */
module DpsNaming {
  import opened Wrappers
  import opened RubyText
  import opened RubyValue
  import opened Exceptions

  /** The DPS section of the Rails configuration. */
  datatype DpsConfig = DpsConfig(
    enabled: Value,
    server: string,
    port: string,
    rootPath: string,
    user: string,
    password: string,
    localRoot: string,
    remoteFileRoot: string)

  /** A configured `ORA::DPS` instance. */
  datatype Dps = Dps(config: DpsConfig, base: string)

  /** `https://<server>:<port>/<root_path>` */
  function BaseUrl(c: DpsConfig): string
  {
    "https://" + c.server + ":" + c.port + "/" + c.rootPath
  }

  /** `ORA::DPS.new`: refuses to build an instance unless DPS is enabled. */
  function Initialize(c: DpsConfig): (r: Result<Dps, Exception>)
    ensures r.Ok? <==> Present(c.enabled)
    ensures r.Ok? ==> r.value.config == c && r.value.base == BaseUrl(c)
    ensures r.Err? ==> r.error == DpsException("DPS is not enabled")
  {
    if Present(c.enabled) then Ok(Dps(c, BaseUrl(c)))
    else Err(DpsException("DPS is not enabled"))
  }

  function ObjectMetadataJsonFile(uuid: string): (r: string)
    ensures |r| > |uuid| && r[..|uuid|] == uuid && r[|uuid|..] == ".metadata.ora.v2.json"
  {
    uuid + ".metadata.ora.v2.json"
  }

  function PublicMetadataDataciteFile(uuid: string): (r: string)
    ensures |r| > |uuid| && r[..|uuid|] == uuid && r[|uuid|..] == ".public_metadata.datacite.v4.xml"
  {
    uuid + ".public_metadata.datacite.v4.xml"
  }

  /** The two metadata names never collide, whatever the two uuids, and each
      name determines its uuid. */
  lemma MetadataFileNames(u: string, u': string)
    ensures ObjectMetadataJsonFile(u) != PublicMetadataDataciteFile(u')
    ensures ObjectMetadataJsonFile(u) == ObjectMetadataJsonFile(u') ==> u == u'
    ensures PublicMetadataDataciteFile(u) == PublicMetadataDataciteFile(u') ==> u == u'
  {
    var j, p := ObjectMetadataJsonFile(u), PublicMetadataDataciteFile(u');
    assert j[|j| - 1] == 'n' && p[|p| - 1] == 'l';
    if ObjectMetadataJsonFile(u) == ObjectMetadataJsonFile(u') {
      assert |u| == |u'|;
      assert u == ObjectMetadataJsonFile(u)[..|u|];
    }
    if PublicMetadataDataciteFile(u) == PublicMetadataDataciteFile(u') {
      assert |u| == |u'|;
      assert u == PublicMetadataDataciteFile(u)[..|u|];
    }
  }

  /** The names under which the metadata of `uuid` is archived. */
  function MetadataFiles(uuid: string): seq<string>
  {
    [ObjectMetadataJsonFile(uuid), PublicMetadataDataciteFile(uuid)]
  }

  // ---------------------------------------------------------------------
  // Pair-tree paths

  /** `File.join(root, File.join(h[0,2], h[2,2], h[4,2]), h)`; a nil
      segment makes `File.join` raise. */
  function ShardedPath(root: string, h: string): (r: Result<string, Exception>)
    ensures r.Err? <==> |h| < 4
  {
    match (Slice(h, 0, 2), Slice(h, 2, 2), Slice(h, 4, 2))
    case (Some(a), Some(b), Some(c)) => Ok(root + "/" + a + "/" + b + "/" + c + "/" + h)
    case _ => Err(TypeError("no implicit conversion of nil into String"))
  }

  /** For a digest of at least six characters, its first three pairs
      become three directories and the digest itself the file name. */
  lemma ShardedPathShape(root: string, h: string)
    requires |h| >= 6
    ensures ShardedPath(root, h) == Ok(root + "/" + h[0..2] + "/" + h[2..4] + "/" + h[4..6] + "/" + h)
  {
  }

  /** Two digests of at least six characters share a path only if they are
      the same digest. */
  lemma ShardedPathInjective(root: string, h: string, h': string)
    requires |h| >= 6 && |h'| >= 6
    requires ShardedPath(root, h) == ShardedPath(root, h')
    ensures h == h'
  {
    ShardedPathShape(root, h);
    ShardedPathShape(root, h');
    var p := ShardedPath(root, h).value;
    assert h == p[|root| + 10..];
    assert h' == p[|root| + 10..];
  }

  // ---------------------------------------------------------------------
  // Binary descriptors

  /** What `parse_binary_files` reads from one file set of the object. */
  datatype FileSetRecord = FileSetRecord(
    id: string,
    mimeType: string,
    digestPath: string,    // `original_file.digest.first.object[:path]`, e.g. "sha1:<hex>"
    byReference: bool,     // `file_by_reference?`
    fileFormat: string)    // for a file by reference, where the file is

  /** One entry of the list `parse_binary_files` builds. */
  datatype BinaryFile = BinaryFile(id: string, remotePath: string, localPath: string, mimeType: string)

  /** `file_digest.split(':')[1]`, nil when there is no second field. */
  function DigestSha1(digestPath: string): Option<string>
  {
    At(Split(digestPath, ":"), 1)
  }

  /** The entry `parse_binary_files` appends for one file set. */
  function ParseFileSet(c: DpsConfig, fs: FileSetRecord): (r: Result<BinaryFile, Exception>)
    ensures r.Ok? <==> DigestSha1(fs.digestPath).Some? && |DigestSha1(fs.digestPath).value| >= 4
    ensures r.Ok? ==>
      var h := DigestSha1(fs.digestPath).value;
      && r.value.id == fs.id && r.value.mimeType == fs.mimeType
      && Ok(r.value.localPath) == ShardedPath(c.localRoot, h)
      && Ok(r.value.remotePath) == ShardedPath(c.remoteFileRoot, h)
  {
    match DigestSha1(fs.digestPath)
    case None => Err(NoMethodError("[]"))
    case Some(h) =>
      match (ShardedPath(c.remoteFileRoot, h), ShardedPath(c.localRoot, h))
      case (Ok(remote), Ok(local)) => Ok(BinaryFile(fs.id, remote, local, fs.mimeType))
      case (Err(e), _) => Err(e)
      case (_, Err(e)) => Err(e)
  }

  /** What `parse_binary_files` returns or raises: the entries of the file
      sets taken in order, stopping at the first that fails. */
  function ParseAll(c: DpsConfig, fss: seq<FileSetRecord>): Result<seq<BinaryFile>, Exception>
    decreases |fss|
  {
    if fss == [] then Ok([])
    else
      match ParseAll(c, fss[..|fss| - 1])
      case Err(e) => Err(e)
      case Ok(init) =>
        match ParseFileSet(c, fss[|fss| - 1])
        case Err(e) => Err(e)
        case Ok(f) => Ok(init + [f])
  }

  /** One file set more: the parse extends by its entry, or stops at it. */
  lemma ParseAllSnoc(c: DpsConfig, fss: seq<FileSetRecord>, i: nat)
    requires i < |fss|
    ensures ParseAll(c, fss[..i + 1]) ==
      match ParseAll(c, fss[..i])
      case Err(e) => Err(e)
      case Ok(init) =>
        match ParseFileSet(c, fss[i])
        case Err(e) => Err(e)
        case Ok(f) => Ok(init + [f])
  {
    assert fss[..i + 1][..i] == fss[..i];
  }

  /** Once a prefix fails, the whole parse fails with the same error. */
  lemma {:induction false} ParseAllStops(c: DpsConfig, fss: seq<FileSetRecord>, k: nat)
    requires k <= |fss| && ParseAll(c, fss[..k]).Err?
    ensures ParseAll(c, fss) == ParseAll(c, fss[..k])
    decreases |fss| - k
  {
    if k < |fss| {
      ParseAllSnoc(c, fss, k);
      ParseAllStops(c, fss, k + 1);
    } else {
      assert fss[..k] == fss;
    }
  }

  /** `parse_binary_files` succeeds exactly when every file set parses. */
  lemma {:induction false} ParseAllOk(c: DpsConfig, fss: seq<FileSetRecord>)
    ensures ParseAll(c, fss).Ok? <==> forall i :: 0 <= i < |fss| ==> ParseFileSet(c, fss[i]).Ok?
    decreases |fss|
  {
    if fss != [] {
      var n := |fss| - 1;
      var init := fss[..n];
      ParseAllOk(c, init);
      assert ParseAll(c, fss).Ok? <==> ParseAll(c, init).Ok? && ParseFileSet(c, fss[n]).Ok?;
      assert forall i :: 0 <= i < n ==> init[i] == fss[i];
    }
  }

  /** A successful parse gives the entry of each file set, in order. */
  lemma {:induction false} ParseAllEntries(c: DpsConfig, fss: seq<FileSetRecord>)
    requires ParseAll(c, fss).Ok?
    ensures var r := ParseAll(c, fss).value;
      |r| == |fss| && forall i :: 0 <= i < |fss| ==> ParseFileSet(c, fss[i]) == Ok(r[i])
    decreases |fss|
  {
    if fss != [] {
      var n := |fss| - 1;
      var init := fss[..n];
      ParseAllEntries(c, init);
      var p := ParseAll(c, init).value;
      var r := ParseAll(c, fss).value;
      assert r == p + [r[n]];
      forall i | 0 <= i < n
        ensures ParseFileSet(c, fss[i]) == Ok(r[i])
      {
        assert init[i] == fss[i] && r[i] == p[i];
      }
    }
  }

  /** A failed parse raises the error of the first file set that fails. */
  lemma {:induction false} ParseAllFirstError(c: DpsConfig, fss: seq<FileSetRecord>)
    requires ParseAll(c, fss).Err?
    ensures exists i :: 0 <= i < |fss| && ParseFileSet(c, fss[i]) == Err(ParseAll(c, fss).error) &&
                        forall j :: 0 <= j < i ==> ParseFileSet(c, fss[j]).Ok?
    decreases |fss|
  {
    var n := |fss| - 1;
    var init := fss[..n];
    var e := ParseAll(c, fss).error;
    if ParseAll(c, init).Err? {
      ParseAllFirstError(c, init);
      var i :| 0 <= i < n && ParseFileSet(c, init[i]) == Err(e) &&
               forall j :: 0 <= j < i ==> ParseFileSet(c, init[j]).Ok?;
      assert init[i] == fss[i];
      assert forall j :: 0 <= j < i ==> init[j] == fss[j];
    } else {
      ParseAllOk(c, init);
      assert forall j :: 0 <= j < n ==> init[j] == fss[j];
      assert ParseFileSet(c, fss[n]) == Err(e);
    }
  }

  lemma DigestSha1OfSha1Path(h: string)
    requires h != [] && ':' !in h
    ensures DigestSha1("sha1:" + h) == Some(h)
  {
    assert ':' !in "sha1";
    assert "sha1:" + h == "sha1" + [':'] + h;
    SplitJoin(["sha1", h], ':');
    assert Join(["sha1", h], ':') == "sha1" + [':'] + Join([h], ':');
  }

  // ---------------------------------------------------------------------
  // Archived binaries

  /** `a - b` for arrays: the elements of `a` not in `b`, in order. */
  function ListMinus(a: seq<string>, b: seq<string>): (r: seq<string>)
    ensures |r| <= |a|
    ensures forall x :: x in r <==> x in a && x !in b
  {
    if a == [] then []
    else if a[0] in b then ListMinus(a[1..], b)
    else [a[0]] + ListMinus(a[1..], b)
  }

  /** `Array#-` keeps duplicates: an element not in `b` occurs in `a - b`
      exactly as often as in `a`. */
  lemma {:induction false} ListMinusCount(a: seq<string>, b: seq<string>, x: string)
    ensures multiset(ListMinus(a, b))[x] == if x in b then 0 else multiset(a)[x]
  {
    if a != [] {
      assert a == [a[0]] + a[1..];
      ListMinusCount(a[1..], b, x);
    }
  }

  /** `a - b` goes through `a` element by element, keeping their order:
      it commutes with concatenation. */
  lemma {:induction false} ListMinusAppend(a1: seq<string>, a2: seq<string>, b: seq<string>)
    ensures ListMinus(a1 + a2, b) == ListMinus(a1, b) + ListMinus(a2, b)
  {
    if a1 == [] {
      assert a1 + a2 == a2;
    } else {
      assert (a1 + a2)[0] == a1[0] && (a1 + a2)[1..] == a1[1..] + a2;
      ListMinusAppend(a1[1..], a2, b);
      if a1[0] !in b {
        assert [a1[0]] + (ListMinus(a1[1..], b) + ListMinus(a2, b)) ==
               ([a1[0]] + ListMinus(a1[1..], b)) + ListMinus(a2, b);
      }
    }
  }

  /** On one element, `a - b` keeps it exactly when `b` does not hold it. */
  lemma ListMinusSingle(x: string, b: seq<string>)
    ensures ListMinus([x], b) == if x in b then [] else [x]
  {
    assert [x][1..] == [];
  }

  /** `uri.split("/").last`; nil, which only an empty or all-slash URI
      gives, is taken as the empty name. */
  function LastSegment(uri: string): string
  {
    match Last(Split(uri, "/"))
    case Some(s) => s
    case None => ""
  }

  lemma LastSegmentOfChild(parent: string, name: string)
    requires name != [] && '/' !in name
    ensures LastSegment(parent + "/" + name) == name
  {
    assert parent + "/" + name == parent + ['/'] + name;
    SplitFieldsLast(parent, '/', name);
  }

  /** `children.map { |f| f.split("/").last }` */
  function ChildNames(children: seq<string>): (r: seq<string>)
    ensures |r| == |children|
    ensures forall i :: 0 <= i < |children| ==> r[i] == LastSegment(children[i])
  {
    if children == [] then [] else [LastSegment(children[0])] + ChildNames(children[1..])
  }

  /** `get_ocfl_binary_files`: nothing for a container that does not exist,
      else the last segment of each child URI less the metadata names. */
  function OcflBinaryFiles(uuid: string, present: bool, children: seq<string>): (r: seq<string>)
    ensures !present ==> r == []
    ensures forall n :: n in r ==> n !in MetadataFiles(uuid)
    ensures present ==> forall n :: n in r <==> n in ChildNames(children) && n !in MetadataFiles(uuid)
  {
    if !present then [] else ListMinus(ChildNames(children), MetadataFiles(uuid))
  }

  // ---------------------------------------------------------------------
  // Files held by reference

  /** The local path of a file by reference: the third `;` field of
      `file_format`, its last `"` segment, and the text after `file://`. */
  function ReferencePath(fileFormat: string): (r: Result<string, Exception>)
    ensures |Split(fileFormat, ";")| < 3 ==> r == Err(NoMethodError("split"))
    ensures r.Ok? ==> r.value != ""
  {
    match At(Split(fileFormat, ";"), 2)
    case None => Err(NoMethodError("split"))
    case Some(url) =>
      match Last(Split(url, "\""))
      case None => Err(NoMethodError("split"))
      case Some(full) =>
        match Last(Split(full, "file://"))
        case None => Err(TypeError("no implicit conversion of nil into String"))
        case Some(p) => Ok(p)
  }

  lemma FormatFields(m: string, a: string, p: string)
    requires ';' !in m && ';' !in a && ';' !in p && '"' !in p
    ensures At(Split(m + ";" + a + ";url=\"file://" + p + "\"", ";"), 2) == Some("url=\"file://" + p + "\"")
  {
    var u := "url=\"file://" + p + "\"";
    assert ';' !in u by {
      assert u == "url=\"file://" + p + "\"";
      forall i | 0 <= i < |u| ensures u[i] != ';' {
        if 12 <= i < 12 + |p| { assert u[i] == p[i - 12]; }
      }
    }
    assert [m, a, u][1..] == [a, u] && [a, u][1..] == [u];
    assert Join([a, u], ';') == a + ";" + u;
    assert m + ";" + a + ";url=\"file://" + p + "\"" == Join([m, a, u], ';');
    SplitJoin([m, a, u], ';');
  }

  lemma UrlQuoted(full: string)
    requires '"' !in full && full != ""
    ensures Last(Split("url=\"" + full + "\"", "\"")) == Some(full)
  {
    var u := "url=\"" + full + "\"";
    var fs := ["url=", full, ""];
    assert fs[1..] == [full, ""] && fs[1..][1..] == [""];
    assert Join([full, ""], '"') == full + "\"";
    assert u == Join(fs, '"');
    SplitFieldsJoin(["url=", full, ""], '"');
    assert Split(u, "\"") == ["url=", full];
  }

  lemma FileScheme(p: string)
    requires p != "" && !Contains(p, "file://")
    ensures Last(Split("file://" + p, "file://")) == Some(p)
  {
    SplitFieldsLeading(p, "file://");
    SplitFieldsAbsent(p, "file://");
    assert Split("file://" + p, "file://") == ["", p];
  }

  /** The three steps of `ReferencePath`, one field at a time. */
  lemma ReferencePathSteps(s: string, url: string, full: string, p: string)
    requires At(Split(s, ";"), 2) == Some(url)
    requires Last(Split(url, "\"")) == Some(full)
    requires Last(Split(full, "file://")) == Some(p)
    ensures ReferencePath(s) == Ok(p)
  {
  }

  lemma UrlForms(p: string)
    ensures "url=\"file://" + p + "\"" == "url=\"" + ("file://" + p) + "\""
  {
  }

  lemma SchemeUnquoted(p: string)
    requires '"' !in p
    ensures '"' !in "file://" + p
  {
    var full := "file://" + p;
    forall i | 0 <= i < |full| ensures full[i] != '"' {
      if 7 <= i { assert full[i] == p[i - 7]; }
    }
  }

  /** The documented form `message/external-body;access-type=URL;url="file://<path>"`
      gives back `<path>`. */
  lemma ReferencePathOfFileUrl(m: string, a: string, p: string)
    requires ';' !in m && ';' !in a && ';' !in p && '"' !in p
    requires p != "" && !Contains(p, "file://")
    ensures ReferencePath(m + ";" + a + ";url=\"file://" + p + "\"") == Ok(p)
  {
    var full := "file://" + p;
    var url := "url=\"file://" + p + "\"";
    FormatFields(m, a, p);
    UrlForms(p);
    SchemeUnquoted(p);
    UrlQuoted(full);
    FileScheme(p);
    ReferencePathSteps(m + ";" + a + ";url=\"file://" + p + "\"", url, full, p);
  }
}
