/**
 * Clone keys (software/src/main.py, make_clone_key): the string that stands
 * for a clonotype's identity when two samples are compared. Bulk data uses
 * single-chain columns; single-cell data joins the A and B chains.
 */
module Clonotypes {
  import opened Wrappers

  /** One row of the input table, after its columns have been renamed. */
  datatype Row = Row(sampleId: string, cells: map<string, string>)

  /** The exceptions the distance engine raises. */
  datatype Error =
    | UnsupportedIntersection(intersection: string, singleCell: bool)
    | MissingColumn(column: string)          // KeyError from `row[column]`
    | UnsupportedMetric(metric: string)
    | MissingColumns(columns: set<string>)   // the required-columns check of `main`
    | MissingKey(key: string)                // KeyError from `config[key]` on a metric config

  /** The separator the key's f-strings put between fields. */
  const Separator: char := '|'

  /** The four intersection modes the engine understands. */
  predicate SupportedIntersection(intersection: string) {
    intersection in {"CDR3ntVJ", "CDR3aaVJ", "CDR3nt", "CDR3aa"}
  }

  /** The columns whose values form the key, in the order they are joined. */
  function KeyColumns(intersection: string, singleCell: bool): (cols: Option<seq<string>>)
    ensures cols.Some? <==> SupportedIntersection(intersection)
    ensures cols.Some? ==> |cols.value| > 0
  {
    if singleCell then
      if intersection == "CDR3ntVJ" then Some(["CDR3nt_A", "CDR3nt_B", "VGene_A", "VGene_B", "JGene_A", "JGene_B"])
      else if intersection == "CDR3aaVJ" then Some(["CDR3aa_A", "CDR3aa_B", "VGene_A", "VGene_B", "JGene_A", "JGene_B"])
      else if intersection == "CDR3nt" then Some(["CDR3nt_A", "CDR3nt_B"])
      else if intersection == "CDR3aa" then Some(["CDR3aa_A", "CDR3aa_B"])
      else None
    else
      if intersection == "CDR3ntVJ" then Some(["CDR3nt", "VGene", "JGene"])
      else if intersection == "CDR3aaVJ" then Some(["CDR3aa", "VGene", "JGene"])
      else if intersection == "CDR3nt" then Some(["CDR3nt"])
      else if intersection == "CDR3aa" then Some(["CDR3aa"])
      else None
  }

  /** Reads the cells `cols` of a row left to right; the first missing one raises. */
  function Fetch(cells: map<string, string>, cols: seq<string>): (r: Result<seq<string>, Error>)
    ensures r.Ok? <==> forall c :: c in cols ==> c in cells
    ensures r.Ok? ==> |r.value| == |cols| && forall i :: 0 <= i < |cols| ==> r.value[i] == cells[cols[i]]
    ensures r.Err? ==> exists i :: 0 <= i < |cols| && cols[i] !in cells && r.error == MissingColumn(cols[i])
  {
    if cols == [] then Ok([])
    else if cols[0] !in cells then Err(MissingColumn(cols[0]))
    else
      match Fetch(cells, cols[1..])
      case Err(e) => Err(e)
      case Ok(rest) => Ok([cells[cols[0]]] + rest)
  }

  /** `"|".join(fields)`. */
  function Join(fields: seq<string>): string {
    if |fields| == 0 then ""
    else if |fields| == 1 then fields[0]
    else fields[0] + [Separator] + Join(fields[1..])
  }

  /** `s.split("|")`. */
  function Split(s: string): (parts: seq<string>)
    ensures |parts| > 0
  {
    if |s| == 0 then [""]
    else
      var rest := Split(s[1..]);
      if s[0] == Separator then [""] + rest else [[s[0]] + rest[0]] + rest[1..]
  }

  /** The clone key of a row for an intersection mode. */
  function MakeCloneKey(row: Row, intersection: string, singleCell: bool): (r: Result<string, Error>)
    ensures !SupportedIntersection(intersection) ==> r == Err(UnsupportedIntersection(intersection, singleCell))
    ensures SupportedIntersection(intersection) ==>
      var cols := KeyColumns(intersection, singleCell).value;
      && (r.Ok? <==> forall c :: c in cols ==> c in row.cells)
      && (r.Err? ==> exists c :: c in cols && c !in row.cells && r.error == MissingColumn(c))
  {
    match KeyColumns(intersection, singleCell)
    case None => Err(UnsupportedIntersection(intersection, singleCell))
    case Some(cols) =>
      match Fetch(row.cells, cols)
      case Err(e) => Err(e)
      case Ok(values) => Ok(Join(values))
  }

  lemma Join2(a: string, b: string)
    ensures Join([a, b]) == a + "|" + b
  {
    assert [a, b][1..] == [b];
  }

  lemma Join3(a: string, b: string, c: string)
    ensures Join([a, b, c]) == a + "|" + b + "|" + c
  {
    assert [a, b, c][1..] == [b, c];
    Join2(b, c);
  }

  lemma Join4(a: string, b: string, c: string, d: string)
    ensures Join([a, b, c, d]) == a + "|" + b + "|" + c + "|" + d
  {
    assert [a, b, c, d][1..] == [b, c, d];
    Join3(b, c, d);
  }

  lemma Join5(a: string, b: string, c: string, d: string, e: string)
    ensures Join([a, b, c, d, e]) == a + "|" + b + "|" + c + "|" + d + "|" + e
  {
    assert [a, b, c, d, e][1..] == [b, c, d, e];
    Join4(b, c, d, e);
  }

  lemma Join6(a: string, b: string, c: string, d: string, e: string, f: string)
    ensures Join([a, b, c, d, e, f]) == a + "|" + b + "|" + c + "|" + d + "|" + e + "|" + f
  {
    assert [a, b, c, d, e, f][1..] == [b, c, d, e, f];
    Join5(b, c, d, e, f);
  }

  /** Reading cells that are all present. */
  lemma FetchPresent(cells: map<string, string>, cols: seq<string>, values: seq<string>)
    requires |values| == |cols|
    requires forall i :: 0 <= i < |cols| ==> cols[i] in cells && cells[cols[i]] == values[i]
    ensures Fetch(cells, cols) == Ok(values)
  {
    assert forall c :: c in cols ==> c in cells;
    var r := Fetch(cells, cols);
    assert r.value == values;
  }

  /** Bulk `CDR3ntVJ` and `CDR3aaVJ` keys: `CDR3|VGene|JGene`. */
  lemma BulkGeneKeys(row: Row)
    requires "CDR3nt" in row.cells && "CDR3aa" in row.cells && "VGene" in row.cells && "JGene" in row.cells
    ensures var c := row.cells;
      && MakeCloneKey(row, "CDR3ntVJ", false) == Ok(c["CDR3nt"] + "|" + c["VGene"] + "|" + c["JGene"])
      && MakeCloneKey(row, "CDR3aaVJ", false) == Ok(c["CDR3aa"] + "|" + c["VGene"] + "|" + c["JGene"])
  {
    var c := row.cells;
    FetchPresent(c, ["CDR3nt", "VGene", "JGene"], [c["CDR3nt"], c["VGene"], c["JGene"]]);
    FetchPresent(c, ["CDR3aa", "VGene", "JGene"], [c["CDR3aa"], c["VGene"], c["JGene"]]);
    Join3(c["CDR3nt"], c["VGene"], c["JGene"]);
    Join3(c["CDR3aa"], c["VGene"], c["JGene"]);
  }

  /** Bulk `CDR3nt` and `CDR3aa` keys: the bare sequence. */
  lemma BulkSequenceKeys(row: Row)
    requires "CDR3nt" in row.cells && "CDR3aa" in row.cells
    ensures MakeCloneKey(row, "CDR3nt", false) == Ok(row.cells["CDR3nt"])
    ensures MakeCloneKey(row, "CDR3aa", false) == Ok(row.cells["CDR3aa"])
  {
    FetchPresent(row.cells, ["CDR3nt"], [row.cells["CDR3nt"]]);
    FetchPresent(row.cells, ["CDR3aa"], [row.cells["CDR3aa"]]);
  }

  /** Single-cell `CDR3ntVJ` key: both chains' CDR3, V and J fields. */
  lemma SingleCellNtGeneKey(row: Row)
    requires forall col :: col in ["CDR3nt_A", "CDR3nt_B", "VGene_A", "VGene_B", "JGene_A", "JGene_B"] ==> col in row.cells
    ensures var c := row.cells;
      MakeCloneKey(row, "CDR3ntVJ", true) ==
        Ok(c["CDR3nt_A"] + "|" + c["CDR3nt_B"] + "|" + c["VGene_A"] + "|" + c["VGene_B"] + "|" + c["JGene_A"] + "|" + c["JGene_B"])
  {
    var c := row.cells;
    var cols := ["CDR3nt_A", "CDR3nt_B", "VGene_A", "VGene_B", "JGene_A", "JGene_B"];
    assert forall i :: 0 <= i < 6 ==> cols[i] in cols;
    FetchPresent(c, cols, [c["CDR3nt_A"], c["CDR3nt_B"], c["VGene_A"], c["VGene_B"], c["JGene_A"], c["JGene_B"]]);
    Join6(c["CDR3nt_A"], c["CDR3nt_B"], c["VGene_A"], c["VGene_B"], c["JGene_A"], c["JGene_B"]);
  }

  /** Single-cell `CDR3aaVJ` key: both chains' CDR3, V and J fields. */
  lemma SingleCellAaGeneKey(row: Row)
    requires forall col :: col in ["CDR3aa_A", "CDR3aa_B", "VGene_A", "VGene_B", "JGene_A", "JGene_B"] ==> col in row.cells
    ensures var c := row.cells;
      MakeCloneKey(row, "CDR3aaVJ", true) ==
        Ok(c["CDR3aa_A"] + "|" + c["CDR3aa_B"] + "|" + c["VGene_A"] + "|" + c["VGene_B"] + "|" + c["JGene_A"] + "|" + c["JGene_B"])
  {
    var c := row.cells;
    var cols := ["CDR3aa_A", "CDR3aa_B", "VGene_A", "VGene_B", "JGene_A", "JGene_B"];
    assert forall i :: 0 <= i < 6 ==> cols[i] in cols;
    FetchPresent(c, cols, [c["CDR3aa_A"], c["CDR3aa_B"], c["VGene_A"], c["VGene_B"], c["JGene_A"], c["JGene_B"]]);
    Join6(c["CDR3aa_A"], c["CDR3aa_B"], c["VGene_A"], c["VGene_B"], c["JGene_A"], c["JGene_B"]);
  }

  /** Single-cell `CDR3nt` and `CDR3aa` keys: the A and B chain sequences. */
  lemma SingleCellSequenceKeys(row: Row)
    requires "CDR3nt_A" in row.cells && "CDR3nt_B" in row.cells && "CDR3aa_A" in row.cells && "CDR3aa_B" in row.cells
    ensures var c := row.cells;
      && MakeCloneKey(row, "CDR3nt", true) == Ok(c["CDR3nt_A"] + "|" + c["CDR3nt_B"])
      && MakeCloneKey(row, "CDR3aa", true) == Ok(c["CDR3aa_A"] + "|" + c["CDR3aa_B"])
  {
    var c := row.cells;
    FetchPresent(c, ["CDR3nt_A", "CDR3nt_B"], [c["CDR3nt_A"], c["CDR3nt_B"]]);
    FetchPresent(c, ["CDR3aa_A", "CDR3aa_B"], [c["CDR3aa_A"], c["CDR3aa_B"]]);
    Join2(c["CDR3nt_A"], c["CDR3nt_B"]);
    Join2(c["CDR3aa_A"], c["CDR3aa_B"]);
  }

  /** Splitting a field free of separators glued to the front of `t`. */
  lemma {:induction false} SplitPrefix(f: string, t: string)
    requires Separator !in f
    ensures Split(f + t) == [f + Split(t)[0]] + Split(t)[1..]
  {
    var st := Split(t);
    if f == [] {
      assert f + t == t;
      assert f + st[0] == st[0];
      assert st == [st[0]] + st[1..];
    } else {
      assert (f + t)[1..] == f[1..] + t;
      SplitPrefix(f[1..], t);
      var rest := Split(f[1..] + t);
      assert rest[0] == f[1..] + st[0];
      assert rest[1..] == st[1..];
      assert f[0] != Separator;
      assert Split(f + t) == [[f[0]] + rest[0]] + rest[1..];
      assert [f[0]] + (f[1..] + st[0]) == f + st[0];
    }
  }

  /** Splitting undoes joining when no field contains the separator. */
  lemma {:induction false} SplitJoin(fields: seq<string>)
    requires |fields| > 0
    requires forall i :: 0 <= i < |fields| ==> Separator !in fields[i]
    ensures Split(Join(fields)) == fields
  {
    if |fields| == 1 {
      SplitPrefix(fields[0], "");
      assert fields[0] + "" == fields[0];
    } else {
      var u := Join(fields[1..]);
      SplitJoin(fields[1..]);
      assert ([Separator] + u)[1..] == u;
      SplitPrefix(fields[0], [Separator] + u);
      assert Split([Separator] + u) == [""] + Split(u);
      assert fields[0] + "" == fields[0];
      assert fields[0] + [Separator] + u == fields[0] + ([Separator] + u);
      assert fields == [fields[0]] + fields[1..];
    }
  }

  /** Joining is injective on non-empty field lists whose fields hold no separator. */
  lemma JoinInjective(v1: seq<string>, v2: seq<string>)
    requires |v1| > 0 && |v2| > 0
    requires forall i :: 0 <= i < |v1| ==> Separator !in v1[i]
    requires forall i :: 0 <= i < |v2| ==> Separator !in v2[i]
    ensures Join(v1) == Join(v2) <==> v1 == v2
  {
    SplitJoin(v1);
    SplitJoin(v2);
  }

  /** Two rows read the same values from `cols` exactly when they agree on every column of it. */
  lemma FetchAgree(cells1: map<string, string>, cells2: map<string, string>, cols: seq<string>)
    requires Fetch(cells1, cols).Ok? && Fetch(cells2, cols).Ok?
    ensures Fetch(cells1, cols).value == Fetch(cells2, cols).value
      <==> forall c :: c in cols ==> cells1[c] == cells2[c]
  {
    var v1 := Fetch(cells1, cols).value;
    var v2 := Fetch(cells2, cols).value;
    if v1 == v2 {
      forall c | c in cols ensures cells1[c] == cells2[c] {
        var i :| 0 <= i < |cols| && cols[i] == c;
        assert v1[i] == v2[i];
      }
    }
    if forall c :: c in cols ==> cells1[c] == cells2[c] {
      forall i | 0 <= i < |cols| ensures v1[i] == v2[i] {
        assert cols[i] in cols;
      }
    }
  }

  /** The values read from `cols` hold no separator when the cells they come from hold none. */
  lemma FetchNoSeparator(cells: map<string, string>, cols: seq<string>)
    requires Fetch(cells, cols).Ok?
    requires forall c :: c in cols ==> Separator !in cells[c]
    ensures forall i :: 0 <= i < |Fetch(cells, cols).value| ==> Separator !in Fetch(cells, cols).value[i]
  {
    forall i | 0 <= i < |cols| ensures Separator !in Fetch(cells, cols).value[i] {
      assert cols[i] in cols;
    }
  }

  /**
   * For one intersection mode, two rows get the same clone key exactly when
   * they agree on every key column, provided no key field contains `|`.
   */
  lemma CloneKeyInjective(r1: Row, r2: Row, intersection: string, singleCell: bool)
    requires MakeCloneKey(r1, intersection, singleCell).Ok? && MakeCloneKey(r2, intersection, singleCell).Ok?
    requires SupportedIntersection(intersection)
    requires var cols := KeyColumns(intersection, singleCell).value;
      forall c :: c in cols ==> Separator !in r1.cells[c] && Separator !in r2.cells[c]
    ensures var cols := KeyColumns(intersection, singleCell).value;
      MakeCloneKey(r1, intersection, singleCell) == MakeCloneKey(r2, intersection, singleCell)
      <==> forall c :: c in cols ==> r1.cells[c] == r2.cells[c]
  {
    var cols := KeyColumns(intersection, singleCell).value;
    assert MakeCloneKey(r1, intersection, singleCell) == Ok(Join(Fetch(r1.cells, cols).value));
    assert MakeCloneKey(r2, intersection, singleCell) == Ok(Join(Fetch(r2.cells, cols).value));
    FetchNoSeparator(r1.cells, cols);
    FetchNoSeparator(r2.cells, cols);
    JoinInjective(Fetch(r1.cells, cols).value, Fetch(r2.cells, cols).value);
    FetchAgree(r1.cells, r2.cells, cols);
  }
}
