/**
 * The `/generate_scorm` endpoint's result: the request guard, the
 * `imsmanifest.xml` descriptor (IMS Content Packaging 1.1.2 as profiled by
 * the SCORM 1.2 Content Aggregation Model), and the names the two written
 * files get in the zip archive. Paths are sequences of path components.
 */
module Packaging {
  import opened Wrappers
  import opened Text
  import opened Sidebar

  datatype Item = Item(identifier: string, identifierRef: string, title: string)
  datatype Organization = Organization(identifier: string, title: string, items: seq<Item>)
  datatype Resource = Resource(identifier: string, kind: string, scormType: string, href: string, files: seq<string>)

  /** The elements and attributes of `imsmanifest.xml`; namespaces and schema locations are fixed text and left out. */
  datatype Manifest = Manifest(
    identifier: string,
    version: string,
    schema: string,
    schemaVersion: string,
    defaultOrganization: string,
    organizations: seq<Organization>,
    resources: seq<Resource>)

  /** The single content document the endpoint writes. */
  const ContentFile := "index.html"
  const ManifestFile := "imsmanifest.xml"

  /** Every identifier the manifest declares, in document order. */
  function Identifiers(m: Manifest): (r: seq<string>)
    ensures m.identifier in r
    ensures forall o :: o in m.organizations ==> o.identifier in r
    ensures forall o, it :: o in m.organizations && it in o.items ==> it.identifier in r
    ensures forall res :: res in m.resources ==> res.identifier in r
  {
    [m.identifier] + OrganizationIdentifiers(m.organizations) + ResourceIdentifiers(m.resources)
  }

  function OrganizationIdentifiers(orgs: seq<Organization>): (r: seq<string>)
    ensures forall o :: o in orgs ==> o.identifier in r
    ensures forall o, it :: o in orgs && it in o.items ==> it.identifier in r
  {
    if orgs == [] then []
    else [orgs[0].identifier] + ItemIdentifiers(orgs[0].items) + OrganizationIdentifiers(orgs[1..])
  }

  function ItemIdentifiers(items: seq<Item>): (r: seq<string>)
    ensures forall it :: it in items ==> it.identifier in r
  {
    if items == [] then [] else [items[0].identifier] + ItemIdentifiers(items[1..])
  }

  function ResourceIdentifiers(resources: seq<Resource>): (r: seq<string>)
    ensures forall res :: res in resources ==> res.identifier in r
  {
    if resources == [] then [] else [resources[0].identifier] + ResourceIdentifiers(resources[1..])
  }

  predicate Distinct(xs: seq<string>) {
    forall i, j :: 0 <= i < j < |xs| ==> xs[i] != xs[j]
  }

  /**
   * Referential integrity of a manifest: the default organization exists,
   * every item refers to a declared resource, every resource's launch file
   * is listed among its files, and no identifier is declared twice.
   */
  predicate Intact(m: Manifest) {
    (exists o :: o in m.organizations && o.identifier == m.defaultOrganization)
    && (forall o, it :: o in m.organizations && it in o.items ==>
          exists res :: res in m.resources && res.identifier == it.identifierRef)
    && (forall res :: res in m.resources ==> res.href in res.files)
    && Distinct(Identifiers(m))
  }

  /** The manifest `generate_scorm` builds: one organization with one item launching one SCO resource. */
  function BuildManifest(): (m: Manifest)
    ensures Intact(m)
    ensures m.schema == "ADL SCORM" && m.schemaVersion == "1.2"
    ensures forall res :: res in m.resources ==> res.scormType == "sco" && res.href == ContentFile && res.files == [ContentFile]
    ensures m.identifier == "CourseID" && m.version == "1.0"
    ensures |m.organizations| == 1 && |m.resources| == 1
    ensures m.organizations[0].identifier == m.defaultOrganization == "ORG1"
    ensures m.organizations[0].title == "Your Course Title"
    ensures |m.organizations[0].items| == 1
    ensures m.organizations[0].items[0].identifier == "ITEM1" && m.organizations[0].items[0].title == "Lesson 1"
    ensures m.organizations[0].items[0].identifierRef == m.resources[0].identifier == "RES1"
    ensures m.resources[0].kind == "webcontent"
  {
    var res := Resource("RES1", "webcontent", "sco", ContentFile, [ContentFile]);
    var item := Item("ITEM1", "RES1", "Lesson 1");
    var org := Organization("ORG1", "Your Course Title", [item]);
    var m := Manifest("CourseID", "1.0", "ADL SCORM", "1.2", "ORG1", [org], [res]);
    SingleScoIntact(m);
    m
  }

  /**
   * A manifest of one organization holding one item that launches one
   * resource is intact when the references match, the launch file is listed
   * and the four identifiers differ.
   */
  lemma SingleScoIntact(m: Manifest)
    requires |m.organizations| == 1 && |m.organizations[0].items| == 1 && |m.resources| == 1
    requires m.organizations[0].identifier == m.defaultOrganization
    requires m.organizations[0].items[0].identifierRef == m.resources[0].identifier
    requires m.resources[0].href in m.resources[0].files
    requires Distinct([m.identifier, m.organizations[0].identifier, m.organizations[0].items[0].identifier, m.resources[0].identifier])
    ensures Intact(m)
  {
    var org, item, res := m.organizations[0], m.organizations[0].items[0], m.resources[0];
    assert org.items == [item] && m.organizations == [org] && m.resources == [res];
    assert ItemIdentifiers([item]) == [item.identifier];
    assert OrganizationIdentifiers([org]) == [org.identifier, item.identifier];
    assert ResourceIdentifiers([res]) == [res.identifier];
    assert Identifiers(m) == [m.identifier, org.identifier, item.identifier, res.identifier];
  }

  /** A path component: non-empty, without `/`, and not `.` or `..`. */
  predicate Component(c: string) {
    c != [] && '/' !in c && c != "." && c != ".."
  }

  /** A normalized absolute path, as the list of its components. */
  predicate Normal(p: seq<string>) {
    forall i :: 0 <= i < |p| ==> Component(p[i])
  }

  /** `os.path.join(dir, name)` for a plain file name. */
  function PathJoin(dir: seq<string>, name: string): (r: seq<string>)
    requires Component(name)
    ensures Normal(dir) ==> Normal(r)
    ensures |r| == |dir| + 1 && r[..|dir|] == dir && r[|dir|] == name
  {
    dir + [name]
  }

  /** The length of the longest common prefix of two paths (`os.path.commonprefix` on component lists). */
  function CommonPrefixLength(a: seq<string>, b: seq<string>): (n: nat)
    ensures n <= |a| && n <= |b| && a[..n] == b[..n]
    ensures n < |a| && n < |b| ==> a[n] != b[n]
  {
    if a == [] || b == [] || a[0] != b[0] then 0
    else
      var n := 1 + CommonPrefixLength(a[1..], b[1..]);
      assert a[..n] == [a[0]] + a[1..][..n - 1];
      assert b[..n] == [b[0]] + b[1..][..n - 1];
      n
  }

  /** `os.path.relpath(path, start)` for normalized absolute paths. */
  function RelPath(path: seq<string>, start: seq<string>): (r: string)
    requires Normal(path) && Normal(start)
    ensures r != []
    ensures r == "." <==> path == start
  {
    var i := CommonPrefixLength(start, path);
    var rel := seq(|start| - i, _ => "..") + path[i..];
    if rel == [] then
      assert start == start[..i] && path == path[..i];
      "."
    else
      assert rel[0] == ".." || rel[0] == path[i];
      JoinedPath(rel);
      Join(rel, "/")
  }

  /** Components joined with `/` give a non-empty path text that is not `.`. */
  lemma JoinedPath(rel: seq<string>)
    requires rel != [] && forall k :: 0 <= k < |rel| ==> rel[k] == ".." || Component(rel[k])
    ensures Join(rel, "/") != [] && Join(rel, "/") != "."
  {
  }

  /** A file directly inside a directory is named relative to it by its own name. */
  lemma RelPathOfChild(dir: seq<string>, name: string)
    requires Normal(dir) && Component(name)
    ensures RelPath(PathJoin(dir, name), dir) == name
  {
    var path := PathJoin(dir, name);
    assert path[|dir|..] == [name];
  }

  /** The directory the files are written to: `content` inside the temporary directory. */
  function ContentDir(tempDir: seq<string>): (r: seq<string>)
    ensures Normal(tempDir) ==> Normal(r)
  {
    PathJoin(tempDir, "content")
  }

  /** The files the endpoint writes into the content directory. */
  const Written: seq<string> := [ContentFile, ManifestFile]

  /**
   * The archive entry names: each written file's path relative to the content
   * directory. They are exactly the page and the manifest at the archive's
   * root, wherever the temporary directory is.
   */
  function ArchiveNames(tempDir: seq<string>): (r: set<string>)
    requires Normal(tempDir)
    ensures r == {ContentFile, ManifestFile}
  {
    var dir := ContentDir(tempDir);
    RelPathOfChild(dir, ContentFile);
    RelPathOfChild(dir, ManifestFile);
    set f | f in Written :: RelPath(PathJoin(dir, f), dir)
  }

  /** Every file the manifest lists is packaged in the archive. */
  lemma ManifestFilesPackaged(tempDir: seq<string>)
    requires Normal(tempDir)
    ensures forall res, f :: res in BuildManifest().resources && f in res.files ==> f in ArchiveNames(tempDir)
  {
  }

  /** The endpoint's answer. */
  datatype Response =
    | BadRequest(error: string)
    | Package(markdown: string, toc: seq<Entry>, manifest: Manifest, entries: set<string>)

  /** The HTTP status of a response. */
  function StatusCode(r: Response): (code: nat)
    ensures code == 400 <==> r.BadRequest?
  {
    if r.BadRequest? then 400 else 200
  }

  /**
   * `generate_scorm` for a JSON body (`None` when there is none) and the
   * temporary directory it is given: the 400 guard, then the package.
   */
  function GenerateScorm(body: Option<map<string, string>>, tempDir: seq<string>): (r: Response)
    requires Normal(tempDir)
    ensures r.BadRequest? <==> body.None? || "markdown" !in body.value
    ensures r.BadRequest? ==> r.error == "No markdown content provided"
    ensures r.Package? ==> r.markdown == body.value["markdown"] && r.toc == GenerateSidebar(r.markdown)
    ensures r.Package? ==> Intact(r.manifest) && r.manifest == BuildManifest()
    ensures r.Package? ==> r.entries == {ContentFile, ManifestFile}
  {
    if body.None? || |body.value| == 0 || "markdown" !in body.value then
      BadRequest("No markdown content provided")
    else
      var md := body.value["markdown"];
      Package(md, GenerateSidebar(md), BuildManifest(), ArchiveNames(tempDir))
  }
}
