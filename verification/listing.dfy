/** The `/api/files` handler of the backend: one entry `{name, type, size,
    modified}` per name in the sandbox root, built from that name's stat
    record. The file system is an input value; a failing `readdirSync`,
    `statSync` or `toISOString` (each of which throws in the handler) becomes
    an `Err`. */
module Listing {
  import opened Outcomes
  import Config
  import IsoDate

  /** What `fs.statSync` reports about one directory entry. `mtimeIso` is
      `mtime.toISOString()`, or `None` when the modification time lies outside
      the range of a JavaScript `Date` and `toISOString` throws `RangeError`. */
  datatype Stat = Stat(isDir: bool, size: nat, mtimeIso: Option<string>)

  /** What the handler can see of one directory: `readdirSync`'s names, in
      enumeration order, and the stat record of each name that can be stat'ed. */
  datatype Directory = Directory(names: seq<string>, stats: map<string, Stat>)

  /** The readable directories, by absolute path. */
  type FileSystem = map<string, Directory>

  /** One element of the JSON array; `kind` is the JSON field `type`. */
  datatype DirEntry = DirEntry(name: string, kind: string, size: nat, modified: string)

  /** Why the handler threw: the root could not be read, a name in it could
      not be stat'ed, or a name's modification time could not be rendered. */
  datatype ListError = ReadDirFailed(path: string) | StatFailed(name: string) | DateFailed(name: string)

  /** The `type` tag: `"folder"` exactly for directories, `"file"` for everything else. */
  function TypeTag(isDir: bool): (tag: string)
    ensures tag == "folder" || tag == "file"
    ensures tag == "folder" <==> isDir
    ensures tag == "file" <==> !isDir
  {
    if isDir then "folder" else "file"
  }

  /** The object literal built from one name and its stat record. Rendering
      the date throws when the modification time has no ISO form. */
  function MakeEntry(name: string, st: Stat): (r: Result<DirEntry, ListError>)
    ensures r.Ok? <==> st.mtimeIso.Some?
    ensures r.Err? ==> r.error == DateFailed(name)
    ensures r.Ok? ==> r.value.name == name
    ensures r.Ok? ==> (r.value.kind == "folder" || r.value.kind == "file")
    ensures r.Ok? ==> (r.value.kind == "folder" <==> st.isDir)
    ensures r.Ok? ==> r.value.size == st.size
    ensures r.Ok? ==> r.value.modified <= st.mtimeIso.value && 'T' !in r.value.modified
    ensures r.Ok? ==>
      |r.value.modified| == |st.mtimeIso.value| || st.mtimeIso.value[|r.value.modified|] == 'T'
    ensures r.Ok? && IsoDate.IsIsoTimestamp(st.mtimeIso.value) ==> IsoDate.IsFullDate(r.value.modified)
  {
    match st.mtimeIso
    case None => Err(DateFailed(name))
    case Some(iso) => Ok(DirEntry(name, TypeTag(st.isDir), st.size, IsoDate.DatePart(iso)))
  }

  /** A name the handler can turn into an entry: it can be stat'ed, and its
      modification time can be rendered. */
  predicate Listable(stats: map<string, Stat>, name: string)
  {
    name in stats && stats[name].mtimeIso.Some?
  }

  /** The callback of `names.map(...)` for one name: `statSync`, then the object literal. */
  function EntryFor(name: string, stats: map<string, Stat>): (r: Result<DirEntry, ListError>)
    ensures r.Ok? <==> Listable(stats, name)
    ensures name !in stats ==> r == Err(StatFailed(name))
    ensures name in stats && stats[name].mtimeIso.None? ==> r == Err(DateFailed(name))
    ensures r.Ok? ==> r.value.name == name && r.value.size == stats[name].size
    ensures r.Ok? ==> (r.value.kind == "folder" <==> stats[name].isDir)
    ensures r.Ok? ==> r.value.modified == IsoDate.DatePart(stats[name].mtimeIso.value)
  {
    if name !in stats then Err(StatFailed(name)) else MakeEntry(name, stats[name])
  }

  /** Index `k` holds the first name that cannot be listed. */
  ghost predicate FirstFailure(names: seq<string>, stats: map<string, Stat>, k: int)
  {
    && 0 <= k < |names|
    && !Listable(stats, names[k])
    && forall j :: 0 <= j < k ==> Listable(stats, names[j])
  }

  /** `names.map(name => …)`: an entry per name, in order, or the exception
      of the first callback that throws. */
  function MapEntries(names: seq<string>, stats: map<string, Stat>): (r: Result<seq<DirEntry>, ListError>)
    ensures r.Ok? <==> forall i :: 0 <= i < |names| ==> Listable(stats, names[i])
    ensures r.Ok? ==> |r.value| == |names|
    ensures r.Ok? ==> forall i :: 0 <= i < |names| ==> EntryFor(names[i], stats) == Ok(r.value[i])
    ensures r.Err? ==> exists k :: FirstFailure(names, stats, k) && EntryFor(names[k], stats) == Err(r.error)
  {
    if |names| == 0 then
      Ok([])
    else
      match EntryFor(names[0], stats)
      case Err(e) =>
        assert FirstFailure(names, stats, 0);
        Err(e)
      case Ok(first) =>
        match MapEntries(names[1..], stats)
        case Ok(rest) =>
          Ok([first] + rest)
        case Err(e) =>
          assert exists k :: FirstFailure(names, stats, k) && EntryFor(names[k], stats) == Err(e) by {
            var k :| FirstFailure(names[1..], stats, k) && EntryFor(names[1..][k], stats) == Err(e);
            assert FirstFailure(names, stats, k + 1);
          }
          Err(e)
  }

  /** Listing a directory: `readdirSync(root)` then the entry mapping. */
  function ListDirectory(fs: FileSystem, root: string): (r: Result<seq<DirEntry>, ListError>)
    ensures r.Ok? <==> root in fs && forall n :: n in fs[root].names ==> Listable(fs[root].stats, n)
    ensures r.Ok? ==> |r.value| == |fs[root].names|
    ensures r.Ok? ==> forall i :: 0 <= i < |r.value| ==>
      EntryFor(fs[root].names[i], fs[root].stats) == Ok(r.value[i])
    ensures r.Err? ==> (r.error == ReadDirFailed(root) <==> root !in fs)
    ensures r.Err? && root in fs ==>
      exists k :: FirstFailure(fs[root].names, fs[root].stats, k)
        && EntryFor(fs[root].names[k], fs[root].stats) == Err(r.error)
  {
    if root !in fs then Err(ReadDirFailed(root)) else MapEntries(fs[root].names, fs[root].stats)
  }

  /** `GET /api/files`. The handler reads no request parameter: its only
      inputs are the configured root and the file system. */
  function FilesHandler(env: Config.Environment, fs: FileSystem): (r: Result<seq<DirEntry>, ListError>)
    ensures var root := Config.Root(env);
      root !in fs ==> r == Err(ReadDirFailed(root))
    ensures var root := Config.Root(env);
      r.Ok? <==> (root in fs && forall n :: n in fs[root].names ==> Listable(fs[root].stats, n))
    ensures var root := Config.Root(env);
      r.Ok? ==> |r.value| == |fs[root].names|
    ensures var root := Config.Root(env);
      r.Ok? ==> forall i :: 0 <= i < |r.value| ==> EntryFor(fs[root].names[i], fs[root].stats) == Ok(r.value[i])
    ensures var root := Config.Root(env);
      r.Err? && root in fs ==>
        exists k :: FirstFailure(fs[root].names, fs[root].stats, k)
          && EntryFor(fs[root].names[k], fs[root].stats) == Err(r.error)
  {
    ListDirectory(fs, Config.Root(env))
  }

  /** Every entry of a successful listing is well formed: a name from the
      directory, a two-valued type tag and a size both taken from that name's
      stat record, and a `modified` date without time of day. */
  lemma {:induction false} EntriesWellFormed(fs: FileSystem, root: string)
    requires ListDirectory(fs, root).Ok?
    ensures forall e :: e in ListDirectory(fs, root).value ==>
      && (e.kind == "folder" || e.kind == "file")
      && e.name in fs[root].names
      && e.name in fs[root].stats
      && (e.kind == "folder" <==> fs[root].stats[e.name].isDir)
      && e.size == fs[root].stats[e.name].size
      && 'T' !in e.modified
  {
    var d := fs[root];
    var entries := ListDirectory(fs, root).value;
    forall e | e in entries
      ensures && (e.kind == "folder" || e.kind == "file")
              && e.name in d.names && e.name in d.stats
              && (e.kind == "folder" <==> d.stats[e.name].isDir)
              && e.size == d.stats[e.name].size
              && 'T' !in e.modified
    {
      var i :| 0 <= i < |entries| && entries[i] == e;
      assert EntryFor(d.names[i], d.stats) == Ok(e);
    }
  }

  /** The entry at each position describes the directory name at the same
      position: its name, type, size and date all come from that name. */
  lemma EntryAtPosition(fs: FileSystem, root: string, i: int)
    requires ListDirectory(fs, root).Ok?
    requires 0 <= i < |fs[root].names|
    ensures i < |ListDirectory(fs, root).value|
    ensures ListDirectory(fs, root).value[i].name == fs[root].names[i]
    ensures ListDirectory(fs, root).value[i].kind == TypeTag(fs[root].stats[fs[root].names[i]].isDir)
    ensures ListDirectory(fs, root).value[i].size == fs[root].stats[fs[root].names[i]].size
    ensures ListDirectory(fs, root).value[i].modified
      == IsoDate.DatePart(fs[root].stats[fs[root].names[i]].mtimeIso.value)
  {
    assert EntryFor(fs[root].names[i], fs[root].stats) == Ok(ListDirectory(fs, root).value[i]);
  }

  /** The listing depends on nothing but the root directory's contents: two
      file systems that agree on the root give the same answer. */
  lemma ListingDependsOnlyOnRoot(fs1: FileSystem, fs2: FileSystem, env: Config.Environment)
    requires Config.Root(env) in fs1 <==> Config.Root(env) in fs2
    requires Config.Root(env) in fs1 ==> fs1[Config.Root(env)] == fs2[Config.Root(env)]
    ensures FilesHandler(env, fs1) == FilesHandler(env, fs2)
  {
  }

  /** The sandbox fixture: with `MOCK_ROOT` pointing at a directory holding
      `test.txt` and `test.png`, both names are in the listing. */
  lemma {:induction false} FixtureNamesListed(env: Config.Environment, fs: FileSystem)
    requires "MOCK_ROOT" in env && env["MOCK_ROOT"] != ""
    requires env["MOCK_ROOT"] in fs
    requires "test.txt" in fs[env["MOCK_ROOT"]].names && "test.png" in fs[env["MOCK_ROOT"]].names
    requires forall n :: n in fs[env["MOCK_ROOT"]].names ==> Listable(fs[env["MOCK_ROOT"]].stats, n)
    ensures FilesHandler(env, fs).Ok?
    ensures exists e :: e in FilesHandler(env, fs).value && e.name == "test.txt"
    ensures exists e :: e in FilesHandler(env, fs).value && e.name == "test.png"
  {
    var d := fs[env["MOCK_ROOT"]];
    var entries := FilesHandler(env, fs).value;
    var i :| 0 <= i < |d.names| && d.names[i] == "test.txt";
    var j :| 0 <= j < |d.names| && d.names[j] == "test.png";
    assert EntryFor(d.names[i], d.stats) == Ok(entries[i]);
    assert EntryFor(d.names[j], d.stats) == Ok(entries[j]);
    assert entries[i].name == "test.txt";
    assert entries[j].name == "test.png";
  }

  /** One name whose modification time cannot be rendered makes the whole
      listing fail, even when every other name is fine. */
  lemma {:induction false} UnrenderableDateFailsListing(fs: FileSystem, root: string, i: int)
    requires root in fs && 0 <= i < |fs[root].names|
    requires fs[root].names[i] in fs[root].stats && fs[root].stats[fs[root].names[i]].mtimeIso.None?
    requires forall j :: 0 <= j < i ==> Listable(fs[root].stats, fs[root].names[j])
    ensures ListDirectory(fs, root) == Err(DateFailed(fs[root].names[i]))
  {
    var d := fs[root];
    var r := ListDirectory(fs, root);
    assert !Listable(d.stats, d.names[i]);
    var k :| FirstFailure(d.names, d.stats, k) && EntryFor(d.names[k], d.stats) == Err(r.error);
    assert k == i;
  }

  /** The stat records of the concrete listing below. */
  function ConcreteStats(): map<string, Stat>
  {
    map["docs" := Stat(true, 4096, Some("2024-01-20T09:15:00.000Z")),
        "a.txt" := Stat(false, 12, Some("2024-01-22T08:30:00.000Z"))]
  }

  /** Each name of the concrete listing yields its entry. */
  lemma ConcreteEntries()
    ensures EntryFor("docs", ConcreteStats()) == Ok(DirEntry("docs", "folder", 4096, "2024-01-20"))
    ensures EntryFor("a.txt", ConcreteStats()) == Ok(DirEntry("a.txt", "file", 12, "2024-01-22"))
  {
    IsoDate.DatePartExample();
    IsoDate.DatePartExample2();
  }

  /** A concrete listing: a folder and a file, both folders and files keep
      their numeric size and get a bare date. */
  lemma ConcreteListing()
    ensures MapEntries(["docs", "a.txt"], ConcreteStats())
      == Ok([DirEntry("docs", "folder", 4096, "2024-01-20"),
             DirEntry("a.txt", "file", 12, "2024-01-22")])
  {
    var names := ["docs", "a.txt"];
    var stats := ConcreteStats();
    ConcreteEntries();
    var r := MapEntries(names, stats);
    assert r.Ok? && |r.value| == 2;
    assert r.value == [DirEntry("docs", "folder", 4096, "2024-01-20"), DirEntry("a.txt", "file", 12, "2024-01-22")];
  }
}
