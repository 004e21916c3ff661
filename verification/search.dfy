/** The search box of the explorer page: the rows shown are those whose
    lower-cased name contains the lower-cased query, in their original order. */
module Search {
  import Text

  /** One row of the page's `files` state; `kind` is the field `type`, and
      size and date are display strings. */
  datatype FileRow = FileRow(name: string, kind: string, size: string, modified: string)

  /** The query the page starts with. */
  const InitialQuery: string := ""

  /** The rows the page starts with. */
  const InitialFiles: seq<FileRow> := [
    FileRow("Documents", "folder", "-", "2024-01-20"),
    FileRow("Images", "folder", "-", "2024-01-21"),
    FileRow("Project_Alpha", "folder", "-", "2024-01-22"),
    FileRow("README.md", "file", "1.2 KB", "2024-01-22"),
    FileRow("config.json", "file", "512 B", "2024-01-22")
  ]

  /** The filter predicate: `f.name.toLowerCase().includes(query.toLowerCase())`. */
  predicate Matches(f: FileRow, query: string)
    ensures Matches(f, query) <==> Text.Contains(Text.Lower(f.name), Text.Lower(query))
  {
    Text.Includes(Text.Lower(f.name), Text.Lower(query))
  }

  /** `a` is obtained from `b` by deleting elements, keeping the order. */
  ghost predicate IsSubsequence<T>(a: seq<T>, b: seq<T>)
    decreases |b|
  {
    if |a| == 0 then true
    else if |b| == 0 then false
    else (a[0] == b[0] && IsSubsequence(a[1..], b[1..])) || IsSubsequence(a, b[1..])
  }

  /** `files.filter(f => Matches(f, query))`. The result keeps the order of
      `files` and every matching row with its full multiplicity, and nothing
      else (soundness and completeness). */
  function FilterRows(files: seq<FileRow>, query: string): (shown: seq<FileRow>)
    ensures IsSubsequence(shown, files)
    ensures forall f :: f in shown ==> Matches(f, query)
    ensures forall f :: f in files && Matches(f, query) ==> f in shown
    ensures forall f :: Matches(f, query) ==> multiset(shown)[f] == multiset(files)[f]
  {
    if |files| == 0 then
      []
    else
      var rest := FilterRows(files[1..], query);
      assert files == [files[0]] + files[1..];
      if Matches(files[0], query) then
        assert ([files[0]] + rest)[1..] == rest;
        [files[0]] + rest
      else
        rest
  }

  /** With the empty query every row is shown. */
  lemma {:induction false} EmptyQueryShowsAll(files: seq<FileRow>)
    ensures FilterRows(files, "") == files
  {
    if |files| > 0 {
      Text.ContainsEmpty(Text.Lower(files[0].name));
      EmptyQueryShowsAll(files[1..]);
      assert files == [files[0]] + files[1..];
    }
  }

  /** On first render (the initial query) the page shows all its rows. */
  lemma InitialPageShowsAll()
    ensures FilterRows(InitialFiles, InitialQuery) == InitialFiles
  {
    EmptyQueryShowsAll(InitialFiles);
  }

  /** Only the lower-cased query matters: `q` and its lower-cased form show the same rows. */
  lemma {:induction false} QueryCaseInsensitive(files: seq<FileRow>, query: string)
    ensures FilterRows(files, query) == FilterRows(files, Text.Lower(query))
  {
    Text.LowerIdempotent(query);
    if |files| > 0 {
      QueryCaseInsensitive(files[1..], query);
    }
  }

  /** Searching the shown rows again with the same query changes nothing. */
  lemma {:induction false} FilterIdempotent(files: seq<FileRow>, query: string)
    ensures FilterRows(FilterRows(files, query), query) == FilterRows(files, query)
  {
    if |files| > 0 {
      FilterIdempotent(files[1..], query);
      var rest := FilterRows(files[1..], query);
      if Matches(files[0], query) {
        assert ([files[0]] + rest)[1..] == rest;
      }
    }
  }

  /** When every row matching `narrow` also matches `wide`, filtering by
      `narrow` is the same as first filtering by `wide` and then by `narrow`. */
  lemma {:induction false} FilterNarrows(files: seq<FileRow>, wide: string, narrow: string)
    requires forall f :: Matches(f, narrow) ==> Matches(f, wide)
    ensures FilterRows(files, narrow) == FilterRows(FilterRows(files, wide), narrow)
  {
    if |files| > 0 {
      FilterNarrows(files[1..], wide, narrow);
      var rest := FilterRows(files[1..], wide);
      if Matches(files[0], wide) {
        assert ([files[0]] + rest)[1..] == rest;
      }
    }
  }

  /** Typing more of a query only removes rows: when the lower-cased `query`
      occurs in the lower-cased `longer`, the rows shown for `longer` are a
      subsequence of those shown for `query`. */
  lemma Monotone(files: seq<FileRow>, query: string, longer: string)
    requires Text.Contains(Text.Lower(longer), Text.Lower(query))
    ensures IsSubsequence(FilterRows(files, longer), FilterRows(files, query))
  {
    forall f | Matches(f, longer)
      ensures Matches(f, query)
    {
      Text.ContainsTransitive(Text.Lower(f.name), Text.Lower(longer), Text.Lower(query));
    }
    FilterNarrows(files, query, longer);
  }

  /** A concrete search: "JSON" finds `config.json` whatever the case. */
  lemma SearchExample()
    ensures InitialFiles[4] in FilterRows(InitialFiles, "JSON")
  {
    var name := Text.Lower(InitialFiles[4].name);
    assert name == "config.json";
    assert Text.Lower("JSON") == "json";
    assert Text.OccursAt(name, "json", 7);
  }
}
