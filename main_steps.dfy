/**
 * The steps of the command-line entry point (software/src/main.py, main)
 * around the distance engine: cleaning the header names, telling single-cell
 * from bulk input by its columns, renaming and checking the required
 * columns, and the second output that keeps each unordered sample pair once.
 */
module MainSteps {
  import opened Wrappers
  import opened StringOrder
  import opened SamplePairs
  import opened Clonotypes
  import opened DistanceTable
  import opened WideTableFacts

  // ------------------------------------------------------------ header names

  /** The characters outside U+2000..U+200A for which Python's `str.isspace` holds. */
  const Whitespace: set<char> := {' ', '\t', '\n', '\r', '\U{0B}', '\U{0C}', '\U{1C}', '\U{1D}', '\U{1E}', '\U{1F}',
    '\U{85}', '\U{A0}', '\U{1680}', '\U{2028}', '\U{2029}', '\U{202F}', '\U{205F}', '\U{3000}'}

  /** Python's `str.isspace` for one character. */
  predicate IsSpace(c: char) {
    c in Whitespace || '\U{2000}' <= c <= '\U{200A}'
  }

  /** The index of the first non-whitespace character at or after `i`, or `|s|`. */
  function SkipSpaces(s: string, i: nat): (k: nat)
    requires i <= |s|
    ensures i <= k <= |s|
    ensures forall m :: i <= m < k ==> IsSpace(s[m])
    ensures k < |s| ==> !IsSpace(s[k])
    decreases |s| - i
  {
    if i < |s| && IsSpace(s[i]) then SkipSpaces(s, i + 1) else i
  }

  /** The end of `s[lo..j]` once its trailing whitespace is dropped. */
  function SkipSpacesBack(s: string, lo: nat, j: nat): (k: nat)
    requires lo <= j <= |s|
    ensures lo <= k <= j
    ensures forall m :: k <= m < j ==> IsSpace(s[m])
    ensures k > lo ==> !IsSpace(s[k - 1])
  {
    if j > lo && IsSpace(s[j - 1]) then SkipSpacesBack(s, lo, j - 1) else j
  }

  /**
   * `s.strip()`: the slice between the leading and the trailing whitespace.
   * Everything cut off is whitespace, and the result neither starts nor
   * ends with whitespace.
   */
  function Strip(s: string): (r: string)
    ensures r == [] || (!IsSpace(r[0]) && !IsSpace(r[|r| - 1]))
  {
    var i := SkipSpaces(s, 0);
    s[i..SkipSpacesBack(s, i, |s|)]
  }

  /** Stripping cuts only whitespace, from the two ends. */
  lemma StripSpec(s: string) returns (i: nat, j: nat)
    ensures i <= j <= |s| && Strip(s) == s[i..j]
    ensures forall k :: 0 <= k < i ==> IsSpace(s[k])
    ensures forall k :: j <= k < |s| ==> IsSpace(s[k])
  {
    i := SkipSpaces(s, 0);
    j := SkipSpacesBack(s, i, |s|);
  }

  /** `s.replace(c, "")`: every `c` removed, every other character kept in order. */
  function RemoveChar(s: string, c: char): (r: string)
    ensures |r| <= |s|
    ensures c !in s ==> r == s
  {
    if s == [] then []
    else (if s[0] == c then [] else [s[0]]) + RemoveChar(s[1..], c)
  }

  lemma {:induction false} RemoveCharMembers(s: string, c: char)
    ensures forall x :: x in RemoveChar(s, c) <==> x in s && x != c
  {
    if s != [] {
      RemoveCharMembers(s[1..], c);
      assert s == [s[0]] + s[1..];
    }
  }

  /**
   * Removal works character by character and keeps order and multiplicity:
   * a single `c` disappears, any other single character stays, and the
   * result of a concatenation is the concatenation of the results.
   */
  lemma {:induction false} RemoveCharConcat(a: string, b: string, c: char)
    ensures RemoveChar(a + b, c) == RemoveChar(a, c) + RemoveChar(b, c)
  {
    if a == [] {
      assert a + b == b;
    } else {
      assert (a + b)[0] == a[0];
      assert (a + b)[1..] == a[1..] + b;
      RemoveCharConcat(a[1..], b, c);
    }
  }

  lemma RemoveCharSingle(x: char, c: char)
    ensures RemoveChar([x], c) == if x == c then [] else [x]
  {
    assert [x][1..] == [];
  }

  /** One header name as `main` cleans it: stripped, then without quotes and spaces. */
  function NormalizeHeader(h: string): (r: string)
    ensures '"' !in r && ' ' !in r
  {
    var unquoted := RemoveChar(Strip(h), '"');
    RemoveCharMembers(Strip(h), '"');
    RemoveCharMembers(unquoted, ' ');
    RemoveChar(unquoted, ' ')
  }

  /** Cleaning only removes characters: whatever is left was in the name. */
  lemma NormalizeHeaderChars(h: string)
    ensures forall x :: x in NormalizeHeader(h) ==> x in h
  {
    var unquoted := RemoveChar(Strip(h), '"');
    RemoveCharMembers(Strip(h), '"');
    RemoveCharMembers(unquoted, ' ');
    var i := SkipSpaces(h, 0);
    var j := SkipSpacesBack(h, i, |h|);
    forall x | x in NormalizeHeader(h) ensures x in h {
      assert x in h[i..j];
    }
  }

  /** A name that is already clean is left as it is. */
  lemma NormalizeClean(h: string)
    requires '"' !in h && ' ' !in h
    requires h == [] || (!IsSpace(h[0]) && !IsSpace(h[|h| - 1]))
    ensures NormalizeHeader(h) == h
  {
    if h != [] {
      assert SkipSpaces(h, 0) == 0;
      assert SkipSpacesBack(h, 0, |h|) == |h|;
    }
    assert Strip(h) == h;
  }

  /** Removing `c` from a `c`-free name followed by one `c` gives the name back. */
  lemma {:induction false} RemoveTrailing(name: string, c: char)
    requires c !in name
    ensures RemoveChar(name + [c], c) == name
  {
    if name == [] {
      assert RemoveChar([c], c) == [] + RemoveChar([], c);
    } else {
      var s := name + [c];
      assert s[0] == name[0] && s[1..] == name[1..] + [c];
      RemoveTrailing(name[1..], c);
      assert RemoveChar(s, c) == [name[0]] + name[1..];
    }
  }

  lemma {:induction false} SkipPadding(s: string, i: nat, end: nat)
    requires i <= end <= |s|
    requires forall k :: i <= k < end ==> IsSpace(s[k])
    requires end < |s| ==> !IsSpace(s[end])
    ensures SkipSpaces(s, i) == end
    decreases end - i
  {
    if i < end {
      SkipPadding(s, i + 1, end);
    }
  }

  lemma {:induction false} SkipPaddingBack(s: string, lo: nat, start: nat, j: nat)
    requires lo <= start <= j <= |s|
    requires forall k :: start <= k < j ==> IsSpace(s[k])
    requires start > lo ==> !IsSpace(s[start - 1])
    ensures SkipSpacesBack(s, lo, j) == start
  {
    if start < j {
      SkipPaddingBack(s, lo, start, j - 1);
    }
  }

  lemma StripQuoted(before: string, name: string, after: string)
    requires forall k :: 0 <= k < |before| ==> IsSpace(before[k])
    requires forall k :: 0 <= k < |after| ==> IsSpace(after[k])
    ensures Strip(before + ['"'] + name + ['"'] + after) == ['"'] + name + ['"']
  {
    var quoted := ['"'] + name + ['"'];
    var s := before + quoted + after;
    assert before + ['"'] + name + ['"'] + after == s;
    var start := |before|;
    var end := |before| + |quoted|;
    assert s[start] == '"' && s[end - 1] == '"';
    assert forall k :: 0 <= k < start ==> s[k] == before[k];
    assert forall k :: end <= k < |s| ==> s[k] == after[k - end];
    SkipPadding(s, 0, start);
    SkipPaddingBack(s, start, end, |s|);
    assert s[start..end] == quoted;
  }

  lemma RemoveQuotes(name: string)
    requires '"' !in name
    ensures RemoveChar(['"'] + name + ['"'], '"') == name
  {
    var s := ['"'] + name + ['"'];
    assert s[0] == '"' && s[1..] == name + ['"'];
    RemoveTrailing(name, '"');
  }

  /**
   * A quoted name with whitespace around it comes out as the bare name, as
   * spreadsheet exports such as `  "CDR3aaB"` are read.
   */
  lemma NormalizeQuoted(before: string, name: string, after: string)
    requires forall k :: 0 <= k < |before| ==> IsSpace(before[k])
    requires forall k :: 0 <= k < |after| ==> IsSpace(after[k])
    requires '"' !in name && ' ' !in name
    ensures NormalizeHeader(before + ['"'] + name + ['"'] + after) == name
  {
    StripQuoted(before, name, after);
    RemoveQuotes(name);
  }

  // ------------------------------------------------------------ layout

  /** The distinct names of a header. */
  function ColumnSet(cols: seq<string>): (s: set<string>)
    ensures forall c :: c in s <==> c in cols
  {
    set c | c in cols
  }

  /** The B-chain columns whose presence marks single-cell input. */
  const SingleCellMarkers: set<string> := {"CDR3aaB", "CDR3ntB", "VGeneB", "JGeneB"}

  /** The renamings `main` applies to cleaned column names, by layout. */
  const SingleCellRenames: map<string, string> := map[
    "CDR3aaA" := "CDR3aa_A", "CDR3ntA" := "CDR3nt_A", "VGeneA" := "VGene_A", "JGeneA" := "JGene_A",
    "CDR3aaB" := "CDR3aa_B", "CDR3ntB" := "CDR3nt_B", "VGeneB" := "VGene_B", "JGeneB" := "JGene_B",
    "count" := "numberOfreads"]

  const BulkRenames: map<string, string> := map[
    "CDR3aa" := "CDR3aa", "CDR3nt" := "CDR3nt", "count" := "numberOfreads", "VGene" := "VGene", "JGene" := "JGene"]

  /** A name the layout's renaming does not list is kept. */
  function Rename(col: string, singleCell: bool): string {
    var renames := if singleCell then SingleCellRenames else BulkRenames;
    if col in renames then renames[col] else col
  }

  /** The columns that must be present after renaming. */
  function RequiredColumns(singleCell: bool): set<string> {
    if singleCell then
      {"sampleId", "numberOfreads", "CDR3aa_A", "CDR3nt_A", "VGene_A", "JGene_A",
       "CDR3aa_B", "CDR3nt_B", "VGene_B", "JGene_B"}
    else {"sampleId", "numberOfreads", "CDR3aa", "CDR3nt", "VGene", "JGene"}
  }

  /** What `main` knows about the input once its header is accepted. */
  datatype Layout = Layout(singleCell: bool, columns: seq<string>)

  /** The header with every name cleaned. */
  function CleanHeader(header: seq<string>): (cols: seq<string>)
    ensures |cols| == |header| && forall i :: 0 <= i < |header| ==> cols[i] == NormalizeHeader(header[i])
  {
    seq(|header|, i requires 0 <= i < |header| => NormalizeHeader(header[i]))
  }

  /** Single-cell input is recognised by all four B-chain columns. */
  predicate IsSingleCell(header: seq<string>) {
    SingleCellMarkers <= ColumnSet(CleanHeader(header))
  }

  /** The cleaned names under the renaming of the detected layout. */
  function RenamedColumns(header: seq<string>): (cols: seq<string>)
    ensures |cols| == |header|
    ensures forall i :: 0 <= i < |header| ==> cols[i] == Rename(NormalizeHeader(header[i]), IsSingleCell(header))
  {
    var cleaned := CleanHeader(header);
    seq(|cleaned|, i requires 0 <= i < |cleaned| => Rename(cleaned[i], IsSingleCell(header)))
  }

  /**
   * Cleans the header, decides single-cell or bulk, renames, and checks
   * that the required columns are there. A rejection names exactly the
   * required columns that are missing.
   */
  function DetectLayout(header: seq<string>): (r: Result<Layout, Error>)
    ensures r.Ok? <==> RequiredColumns(IsSingleCell(header)) <= ColumnSet(RenamedColumns(header))
    ensures r.Ok? ==> r.value.singleCell == IsSingleCell(header) && r.value.columns == RenamedColumns(header)
    ensures r.Err? ==> r.error.MissingColumns? && r.error.columns != {}
    ensures r.Err? ==> forall c :: c in r.error.columns <==> c in RequiredColumns(IsSingleCell(header)) && c !in RenamedColumns(header)
  {
    var singleCell := IsSingleCell(header);
    var columns := RenamedColumns(header);
    var required := RequiredColumns(singleCell);
    if required <= ColumnSet(columns) then Ok(Layout(singleCell, columns))
    else
      var c :| c in required && c !in ColumnSet(columns);
      assert c in required - ColumnSet(columns);
      Err(MissingColumns(required - ColumnSet(columns)))
  }

  /** Every key column of every mode is among the required columns. */
  lemma KeyColumnsRequired(intersection: string, singleCell: bool)
    requires SupportedIntersection(intersection)
    ensures forall c :: c in KeyColumns(intersection, singleCell).value ==> c in RequiredColumns(singleCell)
  {
  }

  /**
   * Once the header is accepted, every row that has the header's cells has a
   * clone key in every supported mode: `make_clone_key` cannot hit a missing
   * column.
   */
  lemma LayoutGivesKeys(header: seq<string>, row: Row, intersection: string)
    requires DetectLayout(header).Ok?
    requires forall c :: c in DetectLayout(header).value.columns ==> c in row.cells
    requires SupportedIntersection(intersection)
    ensures MakeCloneKey(row, intersection, DetectLayout(header).value.singleCell).Ok?
  {
    KeyColumnsRequired(intersection, IsSingleCell(header));
  }

  /** The B-chain columns after the single-cell renaming: the markers, renamed. */
  const ChainBColumns: set<string> := set b | b in SingleCellMarkers :: Rename(b, true)

  /** They are the four `_B` columns. */
  lemma ChainBColumnsAre()
    ensures ChainBColumns == {"CDR3aa_B", "CDR3nt_B", "VGene_B", "JGene_B"}
  {
    assert Rename("CDR3aaB", true) == "CDR3aa_B" && Rename("CDR3ntB", true) == "CDR3nt_B";
    assert Rename("VGeneB", true) == "VGene_B" && Rename("JGeneB", true) == "JGene_B";
  }

  /**
   * In single-cell input the B-chain columns are there by detection, so a
   * rejected single-cell header never misses one of them: only A-chain,
   * sample or count columns can be missing.
   */
  lemma SingleCellNeverMissesChainB(header: seq<string>)
    requires DetectLayout(header).Err? && IsSingleCell(header)
    ensures DetectLayout(header).error.columns !! ChainBColumns
    ensures DetectLayout(header).error.columns <= RequiredColumns(true) - ChainBColumns
  {
    MarkersRenamed(header);
  }

  /** Detected single-cell input has every renamed B-chain column. */
  lemma MarkersRenamed(header: seq<string>)
    requires IsSingleCell(header)
    ensures ChainBColumns <= ColumnSet(RenamedColumns(header))
  {
    forall c | c in ChainBColumns ensures c in RenamedColumns(header) {
      var b :| b in SingleCellMarkers && Rename(b, true) == c;
      MarkerRenamed(header, b);
    }
  }

  lemma MarkerRenamed(header: seq<string>, b: string)
    requires IsSingleCell(header) && b in SingleCellMarkers
    ensures Rename(b, true) in RenamedColumns(header)
  {
    var cleaned := CleanHeader(header);
    assert b in ColumnSet(cleaned);
    var i :| 0 <= i < |cleaned| && cleaned[i] == b;
    assert RenamedColumns(header)[i] == Rename(NormalizeHeader(header[i]), true);
    assert NormalizeHeader(header[i]) == b;
  }

  // ------------------------------------------------------------ unique pairs

  /** The second output: the rows whose `sample1 <= sample2`, in order. */
  function UniqueRows(out: seq<OutRow>): (u: seq<OutRow>)
    ensures forall row :: row in u <==> row in out && LessEq(row.sample1, row.sample2)
  {
    if out == [] then []
    else (if LessEq(out[0].sample1, out[0].sample2) then [out[0]] else []) + UniqueRows(out[1..])
  }

  lemma {:induction false} UniqueRowsPairs(out: seq<OutRow>)
    ensures PairsOf(UniqueRows(out)) == KeepOrdered(PairsOf(out))
  {
    if out != [] {
      UniqueRowsPairs(out[1..]);
      assert PairsOf(out)[1..] == PairsOf(out[1..]);
      var head := if LessEq(out[0].sample1, out[0].sample2) then [out[0]] else [];
      PairsOfConcat(head, UniqueRows(out[1..]));
    }
  }

  lemma PairsOfConcat(a: seq<OutRow>, b: seq<OutRow>)
    ensures PairsOf(a + b) == PairsOf(a) + PairsOf(b)
  {
  }

  /**
   * The unique output holds every unordered pair of samples exactly once,
   * self-pairs included, in the order of
   * `combinations_with_replacement(sorted ids, 2)`: n·(n+1)/2 rows for n
   * samples.
   */
  lemma UniqueRowsOfWide(rows: seq<Row>, configs: seq<Config>, singleCell: bool)
    requires WideRows(rows, configs, singleCell).Ok? && configs != []
    ensures var u := UniqueRows(WideRows(rows, configs, singleCell).value);
      var ids := SampleIds(rows);
      && PairsOf(u) == CombinationsWithReplacement(ids)
      && 2 * |u| == |ids| * (|ids| + 1)
  {
    var groups, tables := WideRowsParts(rows, configs, singleCell);
    var ids := SampleIds(rows);
    var out := WideRows(rows, configs, singleCell).value;
    RowsOfPairs(ids, groups, tables);
    UniqueRowsPairs(out);
    KeepOrderedProduct(ids);
    CombinationsLength(ids);
  }

  /**
   * The deduplication step on the full table. A table without rows has no
   * columns at all, so reading its `sample1` column fails; otherwise the
   * result is the rows whose `sample1 <= sample2`.
   */
  function UniqueTable(out: seq<OutRow>): (r: Result<seq<OutRow>, Error>)
    ensures r.Err? <==> out == []
    ensures r.Err? ==> r.error == MissingColumn("sample1")
    ensures r.Ok? ==> forall row :: row in r.value <==> row in out && LessEq(row.sample1, row.sample2)
  {
    if out == [] then Err(MissingColumn("sample1")) else Ok(UniqueRows(out))
  }

  /**
   * On a wide table that was built, deduplication fails exactly when there
   * is no metric config or no input row.
   */
  lemma UniqueTableOfWide(rows: seq<Row>, configs: seq<Config>, singleCell: bool)
    requires WideRows(rows, configs, singleCell).Ok?
    ensures UniqueTable(WideRows(rows, configs, singleCell).value).Err? <==> configs == [] || rows == []
  {
    WideRowsShape(rows, configs, singleCell);
    var ids := SampleIds(rows);
    if rows != [] {
      assert rows[0].sampleId in ids;
    }
    if ids != [] {
      assert ids[0] in ids;
    }
  }
}
