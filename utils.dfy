/** File selection and report helpers of `utils.py`.  Directory listings, file contents
    and the glob pattern are inputs; deletions are returned as the list of paths the
    script would remove. */
module Utils {
  import opened Wrappers
  import opened Strings
  import Seqs

  // ---------------------------------------------------------------------------------
  // Paths and file matching
  // ---------------------------------------------------------------------------------

  /** `os.path.join(directory, name)` on POSIX: an absolute name replaces the directory,
      an empty directory or one ending in `/` is joined without a new separator. */
  function JoinPath(directory: string, name: string): (path: string)
    ensures EndsWith(path, name)
    ensures path == name || (|path| > |name| && path[|path| - |name| - 1] == '/')
    ensures StartsWith(name, "/") || directory == [] ==> path == name
    ensures !StartsWith(name, "/") && EndsWith(directory, "/") ==> path == directory + name
    ensures !StartsWith(name, "/") && directory != [] && !EndsWith(directory, "/") ==>
      path == directory + "/" + name
  {
    if StartsWith(name, "/") || directory == [] then name
    else if EndsWith(directory, "/") then directory + name
    else directory + "/" + name
  }

  function JoinAll(directory: string, names: seq<string>): (paths: seq<string>)
    ensures |paths| == |names|
    ensures forall k :: 0 <= k < |names| ==> paths[k] == JoinPath(directory, names[k])
  {
    seq(|names|, k requires 0 <= k < |names| => JoinPath(directory, names[k]))
  }

  /** `match_files`: the listed names that satisfy the (glob) pattern, in listing order,
      each joined with the directory. */
  function MatchFiles(dataDir: string, listing: seq<string>, pattern: string -> bool): (files: seq<string>)
    ensures |files| == |Seqs.KeptIndices(listing, pattern)|
    ensures forall k :: 0 <= k < |files| ==>
      files[k] == JoinPath(dataDir, listing[Seqs.KeptIndices(listing, pattern)[k]])
  {
    JoinAll(dataDir, Seqs.Filter(listing, pattern))
  }

  /** A path is matched iff it is the directory joined with a listed name the pattern
      accepts: nothing matching is dropped and nothing else is let in. */
  lemma MatchFilesMembership(dataDir: string, listing: seq<string>, pattern: string -> bool, path: string)
    ensures path in MatchFiles(dataDir, listing, pattern) <==>
      exists i :: 0 <= i < |listing| && pattern(listing[i]) && path == JoinPath(dataDir, listing[i])
  {
    var files, ix := MatchFiles(dataDir, listing, pattern), Seqs.KeptIndices(listing, pattern);
    if exists i :: 0 <= i < |listing| && pattern(listing[i]) && path == JoinPath(dataDir, listing[i]) {
      var i :| 0 <= i < |listing| && pattern(listing[i]) && path == JoinPath(dataDir, listing[i]);
      assert i in ix;
      var k :| 0 <= k < |ix| && ix[k] == i;
      assert files[k] == path;
    }
    if path in files {
      var k :| 0 <= k < |files| && files[k] == path;
      assert pattern(listing[ix[k]]);
    }
  }

  // ---------------------------------------------------------------------------------
  // Respondent ids in file names: `_(\d+)\.json$`
  // ---------------------------------------------------------------------------------

  /** A respondent id: a non-empty run of decimal digits. */
  predicate IsId(d: string) {
    |d| > 0 && AllDigits(d)
  }

  /** `filename` is `p`, an underscore, the id `d` and the `.json` extension. */
  predicate NamesId(filename: string, p: string, d: string) {
    filename == p + "_" + d + ".json"
  }

  /** The length of the longest all-digit suffix of `s`. */
  function DigitRun(s: string): (k: nat)
    ensures k <= |s| && AllDigits(s[|s| - k..])
    ensures k < |s| ==> !IsDigit(s[|s| - k - 1])
  {
    if s == [] || !IsDigit(s[|s| - 1]) then 0 else DigitRun(s[..|s| - 1]) + 1
  }

  /** The id at the end of a name with its extension removed: the longest digit run,
      when it is non-empty and preceded by `_`. */
  function StemId(stem: string): Option<string> {
    var k := DigitRun(stem);
    if 0 < k < |stem| && stem[|stem| - k - 1] == '_' then Some(stem[|stem| - k..]) else None
  }

  /** An id read from a stem is a digit string that the stem ends with, after a `_`. */
  lemma StemIdShape(stem: string)
    ensures var id := StemId(stem);
      id.Some? ==>
        IsId(id.value) && |id.value| + 1 <= |stem| &&
        stem == stem[..|stem| - |id.value| - 1] + "_" + id.value
  {
    var k := DigitRun(stem);
    if 0 < k < |stem| && stem[|stem| - k - 1] == '_' {
      assert stem == stem[..|stem| - k - 1] + "_" + stem[|stem| - k..];
    }
  }

  /** `extract_id`: the digits between an underscore and a final `.json`, if any.
      `re.search` succeeds at most at one place, because the digits must reach the
      extension and be preceded by `_`: that place is the longest digit run before it. */
  function ExtractId(filename: string): (id: Option<string>)
    ensures id.Some? ==>
      IsId(id.value) && |id.value| + 6 <= |filename| &&
      NamesId(filename, filename[..|filename| - |id.value| - 6], id.value)
  {
    if !EndsWith(filename, ".json") then None
    else
      var stem := filename[..|filename| - 5];
      assert filename == stem + ".json";
      StemIdShape(stem);
      StemId(stem)
  }

  lemma {:induction false} DigitRunOfId(p: string, d: string)
    requires AllDigits(d)
    ensures DigitRun(p + "_" + d) == |d|
  {
    if d != [] {
      var s := p + "_" + d;
      assert s[..|s| - 1] == p + "_" + d[..|d| - 1];
      DigitRunOfId(p, d[..|d| - 1]);
    }
  }

  /** Round trip: the id written into a file name is the id read back, whatever the
      prefix holds (even other `_<digits>` groups). */
  lemma ExtractIdRoundTrip(p: string, d: string)
    requires IsId(d)
    ensures ExtractId(p + "_" + d + ".json") == Some(d)
  {
    var filename := p + "_" + d + ".json";
    var stem := filename[..|filename| - 5];
    assert stem == p + "_" + d;
    assert EndsWith(filename, ".json");
    DigitRunOfId(p, d);
    assert stem[|stem| - |d| - 1] == '_';
    assert stem[|stem| - |d|..] == d;
  }

  /** `extract_id` yields `d` exactly when the name is some prefix, `_`, `d`, `.json`. */
  lemma ExtractIdCharacterization(filename: string, d: string)
    ensures ExtractId(filename) == Some(d) <==> IsId(d) && exists p :: NamesId(filename, p, d)
  {
    if IsId(d) && exists p :: NamesId(filename, p, d) {
      var p :| NamesId(filename, p, d);
      ExtractIdRoundTrip(p, d);
    }
  }

  /** Names that do not end in `_<digits>.json` exactly yield no id. */
  lemma ExtractIdRejects()
    ensures ExtractId("X_.json") == None
    ensures ExtractId("X_5.JSON") == None
    ensures ExtractId("X_5a.json") == None
    ensures ExtractId("5.json") == None
  {
    assert DigitRun("X_") == 0;
    assert !EndsWith("X_5.JSON", ".json") by { assert "X_5.JSON"[3..] != ".json"; }
    assert "X_5a.json"[..4] == "X_5a";
    assert DigitRun("X_5a") == 0;
    assert "5.json"[..1] == "5";
  }

  lemma {:induction false} DigitRunAfterSeparator(q: string, s: string)
    requires q == [] || !IsDigit(q[|q| - 1])
    ensures DigitRun(q + s) == DigitRun(s)
  {
    if s == [] {
      assert q + s == q;
    } else {
      assert (q + s)[..|q + s| - 1] == q + s[..|s| - 1];
      DigitRunAfterSeparator(q, s[..|s| - 1]);
    }
  }

  lemma StemIdAfterSlash(q: string, stem: string)
    requires q != [] && q[|q| - 1] == '/'
    ensures StemId(q + stem) == StemId(stem)
  {
    DigitRunAfterSeparator(q, stem);
    var k, qstem := DigitRun(stem), q + stem;
    if k < |stem| {
      assert qstem[|qstem| - k - 1] == stem[|stem| - k - 1];
      assert qstem[|qstem| - k..] == stem[|stem| - k..];
    } else {
      assert qstem[|qstem| - k - 1] == '/';
    }
  }

  lemma JsonSuffixAfterSlash(q: string, name: string)
    requires q != [] && q[|q| - 1] == '/'
    ensures EndsWith(q + name, ".json") <==> EndsWith(name, ".json")
  {
    var path := q + name;
    if |name| >= 5 {
      assert path[|path| - 5..] == name[|name| - 5..];
    } else if |path| >= 5 {
      assert path[|path| - 5..][4 - |name|] == '/';
    }
  }

  lemma ExtractIdAfterSlash(q: string, name: string)
    requires q != [] && q[|q| - 1] == '/'
    ensures ExtractId(q + name) == ExtractId(name)
  {
    var path := q + name;
    JsonSuffixAfterSlash(q, name);
    if EndsWith(name, ".json") {
      var stem := name[..|name| - 5];
      Seqs.TakeOfConcat(q, name, |name| - 5);
      assert path[..|path| - 5] == q + stem;
      ExtractIdOfStem(path);
      ExtractIdOfStem(name);
      StemIdAfterSlash(q, stem);
      assert ExtractId(path) == StemId(q + stem);
    }
  }

  lemma ExtractIdOfStem(filename: string)
    requires EndsWith(filename, ".json")
    ensures ExtractId(filename) == StemId(filename[..|filename| - 5])
  {
  }

  /** The directory in front of a name never changes the id read from it. */
  lemma ExtractIdIgnoresDirectory(directory: string, name: string)
    ensures ExtractId(JoinPath(directory, name)) == ExtractId(name)
  {
    var path := JoinPath(directory, name);
    if path != name {
      var q := path[..|path| - |name|];
      assert path == q + name;
      ExtractIdAfterSlash(q, name);
    }
  }

  /** `extract_id_files`: one entry per matched file, in the same order, the id read from
      that file's name.  Files without an id keep their place as None (the comment at
      this spot of the source speaks of filtering them out; the code does not). */
  function ExtractIdFiles(dataDir: string, listing: seq<string>, pattern: string -> bool): (ids: seq<Option<string>>)
    ensures |ids| == |Seqs.KeptIndices(listing, pattern)|
    ensures forall k :: 0 <= k < |ids| ==>
      ids[k] == ExtractId(listing[Seqs.KeptIndices(listing, pattern)[k]])
  {
    var files := MatchFiles(dataDir, listing, pattern);
    var ix := Seqs.KeptIndices(listing, pattern);
    forall k | 0 <= k < |files|
      ensures ExtractId(files[k]) == ExtractId(listing[ix[k]])
    {
      ExtractIdIgnoresDirectory(dataDir, listing[ix[k]]);
    }
    seq(|files|, k requires 0 <= k < |files| => ExtractId(files[k]))
  }

  // ---------------------------------------------------------------------------------
  // remove_json_files_with_test_value_from_index
  // ---------------------------------------------------------------------------------

  /** `str(label)` of an index label; a missing label prints as `None`. */
  function LabelText(indexLabel: Option<string>): string {
    match indexLabel
    case Some(s) => s
    case None => "None"
  }

  /** The cell test of step 1: equal to `Test` with `exact_match`, otherwise containing
      `test` in any letter case.  A missing cell prints as `nan` or `None` and so never
      matches. */
  predicate CellFlags(cell: Option<string>, exactMatch: bool) {
    if exactMatch then cell == Some("Test")
    else cell.Some? && ContainsIgnoreCase(cell.value, "Test")
  }

  predicate RowFlagged(row: seq<Option<string>>, exactMatch: bool) {
    exists j :: 0 <= j < |row| && CellFlags(row[j], exactMatch)
  }

  /** `matching_ids`: the labels, as strings, of the rows with a flagged cell, in row
      order. */
  function MatchingIds(index: seq<Option<string>>, rows: seq<seq<Option<string>>>, exactMatch: bool): (ids: seq<string>)
    requires |index| == |rows|
    ensures |ids| == |Seqs.KeptIndices(rows, row => RowFlagged(row, exactMatch))|
    ensures forall k :: 0 <= k < |ids| ==>
      ids[k] == LabelText(index[Seqs.KeptIndices(rows, row => RowFlagged(row, exactMatch))[k]])
  {
    var ix := Seqs.KeptIndices(rows, row => RowFlagged(row, exactMatch));
    seq(|ix|, k requires 0 <= k < |ix| => LabelText(index[ix[k]]))
  }

  /** A row's label is among the matching ids when the row is flagged; every matching id
      is the label of a flagged row. */
  lemma MatchingIdsExactly(index: seq<Option<string>>, rows: seq<seq<Option<string>>>, exactMatch: bool, id: string)
    requires |index| == |rows|
    ensures (exists i :: 0 <= i < |rows| && RowFlagged(rows[i], exactMatch) && LabelText(index[i]) == id)
      <==> id in MatchingIds(index, rows, exactMatch)
  {
    var ids := MatchingIds(index, rows, exactMatch);
    var ix := Seqs.KeptIndices(rows, row => RowFlagged(row, exactMatch));
    if exists i :: 0 <= i < |rows| && RowFlagged(rows[i], exactMatch) && LabelText(index[i]) == id {
      var i :| 0 <= i < |rows| && RowFlagged(rows[i], exactMatch) && LabelText(index[i]) == id;
      assert i in ix;
      var k :| 0 <= k < |ix| && ix[k] == i;
      assert ids[k] == id;
    }
  }

  /** Step 2's test of a directory entry: a `.json` name that contains some matching id
      as a substring (`re.search` of the escaped id). */
  predicate SelectedForRemoval(filename: string, matchingIds: seq<string>) {
    EndsWith(filename, ".json") && exists j :: 0 <= j < |matchingIds| && Contains(filename, matchingIds[j])
  }

  /** Step 2: the paths removed, in listing order.  The inner loop stops at the first id
      found in the name, so each entry is removed at most once. */
  method FilesToRemove(directory: string, listing: seq<string>, matchingIds: seq<string>)
    returns (removed: seq<string>)
    ensures removed == JoinAll(directory, Seqs.Filter(listing, f => SelectedForRemoval(f, matchingIds)))
  {
    removed := [];
    ghost var names: seq<string> := [];
    var i := 0;
    while i < |listing|
      invariant 0 <= i <= |listing|
      invariant names == Seqs.Filter(listing[..i], f => SelectedForRemoval(f, matchingIds))
      invariant removed == JoinAll(directory, names)
    {
      var filename := listing[i];
      ghost var hit := false;
      if EndsWith(filename, ".json") {
        var j := 0;
        while j < |matchingIds|
          invariant 0 <= j <= |matchingIds|
          invariant !hit
          invariant forall t :: 0 <= t < j ==> !Contains(filename, matchingIds[t])
        {
          if Contains(filename, matchingIds[j]) {
            removed := removed + [JoinPath(directory, filename)];
            hit := true;
            break;
          }
          j := j + 1;
        }
      }
      assert hit <==> SelectedForRemoval(filename, matchingIds);
      FilterStep(listing, i, f => SelectedForRemoval(f, matchingIds));
      if hit {
        JoinAllSnoc(directory, names, filename);
        names := names + [filename];
      }
      i := i + 1;
    }
    assert listing[..i] == listing;
  }

  /** The removed paths are the selected entries, each once, in listing order, each joined
      with the directory. */
  lemma RemovedPathsExactly(directory: string, listing: seq<string>, matchingIds: seq<string>)
    ensures var removed := JoinAll(directory, Seqs.Filter(listing, f => SelectedForRemoval(f, matchingIds)));
      var ix := Seqs.KeptIndices(listing, f => SelectedForRemoval(f, matchingIds));
      && |removed| == |ix|
      && forall k :: 0 <= k < |removed| ==> removed[k] == JoinPath(directory, listing[ix[k]])
  {
    var m := MatchFiles(directory, listing, f => SelectedForRemoval(f, matchingIds));
  }

  lemma FilterStep(listing: seq<string>, i: nat, keep: string -> bool)
    requires i < |listing|
    ensures Seqs.Filter(listing[..i + 1], keep)
      == Seqs.Filter(listing[..i], keep) + (if keep(listing[i]) then [listing[i]] else [])
  {
    assert listing[..i + 1] == listing[..i] + [listing[i]];
    Seqs.FilterSnoc(listing[..i], listing[i], keep);
  }

  lemma JoinAllSnoc(directory: string, names: seq<string>, name: string)
    ensures JoinAll(directory, names + [name]) == JoinAll(directory, names) + [JoinPath(directory, name)]
  {
  }

  /** The selection over-matches: flagging respondent `5` also removes the file of
      respondent `15`. */
  lemma RemovalOverMatches()
    ensures SelectedForRemoval("Log_Survey_15.json", ["5"])
    ensures ExtractId("Log_Survey_15.json") == Some("15")
  {
    var name := "Log_Survey_15.json";
    assert name[12..13] == "5";
    assert OccursAt(name, ["5"][0], 12);
    assert EndsWith(name, ".json") by { assert name[13..] == ".json"; }
    assert name == "Log_Survey" + "_" + "15" + ".json";
    ExtractIdRoundTrip("Log_Survey", "15");
  }

  /** The selection the function's purpose calls for: a `.json` entry whose own id (read as
      `extract_id` reads it) is one of the matching ids. */
  predicate SelectedById(filename: string, matchingIds: seq<string>) {
    exists j :: 0 <= j < |matchingIds| && ExtractId(filename) == Some(matchingIds[j])
  }

  /** Removal by id: the `.json` entries whose own id is one of the matching ids, in
      listing order, each joined with the directory. */
  function FilesToRemoveById(directory: string, listing: seq<string>, matchingIds: seq<string>): seq<string> {
    MatchFiles(directory, listing, f => SelectedById(f, matchingIds))
  }

  /** Every path removed by id carries one of the matching ids as its own id. */
  lemma RemovedByIdCarriesId(directory: string, listing: seq<string>, matchingIds: seq<string>, k: nat)
    requires k < |FilesToRemoveById(directory, listing, matchingIds)|
    ensures exists j :: (0 <= j < |matchingIds| &&
                         ExtractId(FilesToRemoveById(directory, listing, matchingIds)[k]) == Some(matchingIds[j]))
  {
    var ix := Seqs.KeptIndices(listing, f => SelectedById(f, matchingIds));
    JoinedNameCarriesId(directory, listing[ix[k]], matchingIds);
  }

  /** Removal by id never removes a path the substring rule would keep. */
  lemma RemovalByIdWithinSubstring(directory: string, listing: seq<string>, matchingIds: seq<string>, p: string)
    requires p in FilesToRemoveById(directory, listing, matchingIds)
    ensures p in JoinAll(directory, Seqs.Filter(listing, f => SelectedForRemoval(f, matchingIds)))
  {
    MatchFilesMembership(directory, listing, f => SelectedById(f, matchingIds), p);
    var i :| 0 <= i < |listing| && SelectedById(listing[i], matchingIds) && p == JoinPath(directory, listing[i]);
    SelectedByIdIsSelected(listing[i], matchingIds);
    MatchFilesMembership(directory, listing, f => SelectedForRemoval(f, matchingIds), p);
  }

  /** The path of a name carrying a matching id carries that id too. */
  lemma JoinedNameCarriesId(directory: string, f: string, matchingIds: seq<string>)
    requires SelectedById(f, matchingIds)
    ensures exists j :: 0 <= j < |matchingIds| && ExtractId(JoinPath(directory, f)) == Some(matchingIds[j])
  {
    var j :| 0 <= j < |matchingIds| && ExtractId(f) == Some(matchingIds[j]);
    ExtractIdIgnoresDirectory(directory, f);
  }

  /** A name carrying a matching id as its own id contains that id. */
  lemma SelectedByIdIsSelected(f: string, matchingIds: seq<string>)
    requires SelectedById(f, matchingIds)
    ensures SelectedForRemoval(f, matchingIds)
  {
    var j :| 0 <= j < |matchingIds| && ExtractId(f) == Some(matchingIds[j]);
    var d := matchingIds[j];
    assert f[|f| - |d| - 5..|f| - 5] == d;
    assert OccursAt(f, d, |f| - |d| - 5);
    assert f[|f| - 5..] == ".json";
  }

  // ---------------------------------------------------------------------------------
  // generate_columnwise_unique_report
  // ---------------------------------------------------------------------------------

  /** The present values among `cells`, in order: what `dropna()` keeps. */
  function DropMissing(cells: seq<Option<string>>): (values: seq<string>)
    ensures |values| == |Seqs.KeptIndices(cells, (c: Option<string>) => c.Some?)|
    ensures forall k :: 0 <= k < |values| ==>
      Some(values[k]) == cells[Seqs.KeptIndices(cells, (c: Option<string>) => c.Some?)[k]]
  {
    var present := Seqs.Filter(cells, (c: Option<string>) => c.Some?);
    seq(|present|, k requires 0 <= k < |present| => present[k].value)
  }

  /** `dropna().unique()`: the distinct present values of a column, in order of first
      appearance.  (Dropping missing cells before or after de-duplicating gives the same
      list; the model de-duplicates first.) */
  function UniqueValues(column: seq<Option<string>>): (values: seq<string>)
    ensures Seqs.NoDuplicates(values)
    ensures forall v :: v in values <==> Some(v) in column
    ensures forall i, j :: 0 <= i < j < |values| ==>
      Seqs.FirstIndex(column, Some(values[i])) < Seqs.FirstIndex(column, Some(values[j]))
  {
    var d := Seqs.Distinct(column);
    var values := DropMissing(d);
    UniqueValuesFacts(column, d, values);
    values
  }

  lemma UniqueValuesFacts(column: seq<Option<string>>, d: seq<Option<string>>, values: seq<string>)
    requires d == Seqs.Distinct(column) && values == DropMissing(d)
    ensures Seqs.NoDuplicates(values)
    ensures forall v :: v in values <==> Some(v) in column
    ensures forall i, j :: 0 <= i < j < |values| ==>
      Seqs.FirstIndex(column, Some(values[i])) < Seqs.FirstIndex(column, Some(values[j]))
  {
    UniqueValuesMembership(column, d, values);
    UniqueValuesOrder(column, d, values);
  }

  lemma UniqueValuesMembership(column: seq<Option<string>>, d: seq<Option<string>>, values: seq<string>)
    requires d == Seqs.Distinct(column) && values == DropMissing(d)
    ensures forall v :: v in values <==> Some(v) in column
  {
    forall v | Some(v) in column
      ensures v in values
    {
      UniqueValuesComplete(column, d, values, v);
    }
    forall v | v in values
      ensures Some(v) in column
    {
      var k :| 0 <= k < |values| && values[k] == v;
      UniqueValuesSound(column, d, values, k);
    }
  }

  lemma UniqueValuesOrder(column: seq<Option<string>>, d: seq<Option<string>>, values: seq<string>)
    requires d == Seqs.Distinct(column) && values == DropMissing(d)
    ensures Seqs.NoDuplicates(values)
    ensures forall i, j :: 0 <= i < j < |values| ==>
      Seqs.FirstIndex(column, Some(values[i])) < Seqs.FirstIndex(column, Some(values[j]))
  {
    forall i, j | 0 <= i < j < |values|
      ensures values[i] != values[j]
      ensures Seqs.FirstIndex(column, Some(values[i])) < Seqs.FirstIndex(column, Some(values[j]))
    {
      UniqueValuesOrdered(column, d, values, i, j);
    }
  }

  lemma UniqueValuesComplete(column: seq<Option<string>>, d: seq<Option<string>>, values: seq<string>, v: string)
    requires d == Seqs.Distinct(column) && values == DropMissing(d)
    requires Some(v) in column
    ensures v in values
  {
    var ix := Seqs.KeptIndices(d, (c: Option<string>) => c.Some?);
    var i :| 0 <= i < |column| && column[i] == Some(v);
    var m :| 0 <= m < |d| && d[m] == Some(v);
    assert m in ix;
    var k :| 0 <= k < |ix| && ix[k] == m;
    assert Some(values[k]) == d[m];
  }

  lemma UniqueValuesSound(column: seq<Option<string>>, d: seq<Option<string>>, values: seq<string>, k: nat)
    requires d == Seqs.Distinct(column) && values == DropMissing(d)
    requires k < |values|
    ensures Some(values[k]) in column
  {
    var ix := Seqs.KeptIndices(d, (c: Option<string>) => c.Some?);
    assert Some(values[k]) == d[ix[k]];
  }

  lemma UniqueValuesOrdered(column: seq<Option<string>>, d: seq<Option<string>>, values: seq<string>, i: nat, j: nat)
    requires d == Seqs.Distinct(column) && values == DropMissing(d)
    requires i < j < |values|
    ensures values[i] != values[j]
    ensures Some(values[i]) in column && Some(values[j]) in column
    ensures Seqs.FirstIndex(column, Some(values[i])) < Seqs.FirstIndex(column, Some(values[j]))
  {
    var ix := Seqs.KeptIndices(d, (c: Option<string>) => c.Some?);
    Seqs.DistinctOrder(column);
    assert Some(values[i]) == d[ix[i]] && Some(values[j]) == d[ix[j]];
    assert ix[i] < ix[j];
  }

  const ReportHead := "<html><body><h1>Unique Values Per Column</h1><table>"
    + "<tr><th>Column</th><th>Unique Values</th><th>Copy</th></tr>"
  const ReportTail := "</table></body></html>"

  /** The element id of table row `i`. */
  function PreId(i: nat): string {
    "pre_" + NatToString(i)
  }

  /** One table row: the column name, its values one per line in a `<pre>` with its own
      id, and a button that copies that `<pre>`. */
  function ReportRow(i: nat, column: string, values: seq<string>): string {
    "<tr><td><b>" + column + "</b></td><td><pre id=\"" + PreId(i) + "\">" + Join("\n", values)
      + "</pre></td><td><button onclick=\"copyText('" + PreId(i) + "')\">Copy</button></td></tr>"
  }

  /** Every row's copy button targets its own `<pre>`: the ids of different rows differ. */
  lemma PreIdsDistinct(i: nat, j: nat)
    requires i != j
    ensures PreId(i) != PreId(j)
  {
    if PreId(i) == PreId(j) {
      TaggedNumberInjective("pre_", i, j);
    }
  }

  /** The report page: one row per column, in column order, listing that column's unique
      values.  Column names must be distinct: with a repeated name the source's
      `df[col]` is a frame, which has no `unique`. */
  method ColumnwiseUniqueReport(names: seq<string>, columns: seq<seq<Option<string>>>)
    returns (html: string)
    requires |names| == |columns|
    requires Seqs.NoDuplicates(names)
    ensures html == ReportHead + Concat(ReportRows(names, columns)) + ReportTail
  {
    html := ReportHead;
    ghost var rows: seq<string> := [];
    var i := 0;
    while i < |names|
      invariant 0 <= i <= |names|
      invariant rows == ReportRows(names[..i], columns[..i])
      invariant html == ReportHead + Concat(rows)
    {
      var row := ReportRow(i, names[i], UniqueValues(columns[i]));
      ConcatSnoc(rows, row);
      ReportRowsSnoc(names, columns, i);
      AppendAssociative(ReportHead, Concat(rows), row);
      html := html + row;
      rows := rows + [row];
      i := i + 1;
    }
    Seqs.TakeAll(names);
    Seqs.TakeAll(columns);
    html := html + ReportTail;
  }

  /** The table rows of the report, row `i` for column `i`. */
  function ReportRows(names: seq<string>, columns: seq<seq<Option<string>>>): (rows: seq<string>)
    requires |names| == |columns|
    ensures |rows| == |names|
    ensures forall i :: 0 <= i < |names| ==> rows[i] == ReportRow(i, names[i], UniqueValues(columns[i]))
  {
    seq(|names|, i requires 0 <= i < |names| => ReportRow(i, names[i], UniqueValues(columns[i])))
  }

  lemma ReportRowsSnoc(names: seq<string>, columns: seq<seq<Option<string>>>, i: nat)
    requires |names| == |columns| && i < |names|
    ensures ReportRows(names[..i + 1], columns[..i + 1])
      == ReportRows(names[..i], columns[..i]) + [ReportRow(i, names[i], UniqueValues(columns[i]))]
  {
  }

  lemma AppendAssociative(a: string, b: string, c: string)
    ensures a + b + c == a + (b + c)
  {
  }

  lemma {:induction false} ConcatSnoc(parts: seq<string>, last: string)
    ensures Concat(parts + [last]) == Concat(parts) + last
  {
    if parts != [] {
      assert (parts + [last])[1..] == parts[1..] + [last];
      ConcatSnoc(parts[1..], last);
    } else {
      assert Concat([last]) == last + Concat([]);
    }
  }

  // ---------------------------------------------------------------------------------
  // combine_html
  // ---------------------------------------------------------------------------------

  /** The id of tab `i`: `tab0`, `tab1`, ... */
  function TabId(i: nat): string {
    "tab" + NatToString(i)
  }

  lemma TabIdsDistinct(i: nat, j: nat)
    requires i != j
    ensures TabId(i) != TabId(j)
  {
    if TabId(i) == TabId(j) {
      TaggedNumberInjective("tab", i, j);
    }
  }

  /** What one page contributes: the stripped inside of its `<body>` element when there is
      one, else the whole page stripped.  `bodyOf` stands for the regular-expression
      search for `<body ...>...</body>`. */
  function TabBody(html: string, bodyOf: string -> Option<string>): string {
    match bodyOf(html)
    case Some(inner) => Strip(inner)
    case None => Strip(html)
  }

  /** A tab holds a piece of the page's `<body>`, or of the whole page when there is none,
      with no white space at either end. */
  lemma TabBodyWithin(html: string, bodyOf: string -> Option<string>)
    ensures var body := TabBody(html, bodyOf);
      && (bodyOf(html).None? ==> Contains(html, body) && exists i :: TrimmedFrom(html, body, i))
      && (bodyOf(html).Some? ==>
            Contains(bodyOf(html).value, body) && exists i :: TrimmedFrom(bodyOf(html).value, body, i))
      && (body == [] || (!IsSpace(body[0]) && !IsSpace(body[|body| - 1])))
  {
    match bodyOf(html)
    case Some(inner) => StripWithin(inner);
    case None => StripWithin(html);
  }

  function TabButton(tabName: string, tabId: string): string {
    "<button class=\"tablink\" onclick=\"showTab('" + tabId + "')\">" + tabName + "</button>"
  }

  /** Only the first content pane starts visible. */
  function PaneClass(i: nat): (c: string)
    ensures c == "tabcontent active" <==> i == 0
  {
    if i == 0 then "tabcontent active" else "tabcontent"
  }

  function TabPane(i: nat, tabId: string, content: string): string {
    "<div id=\"" + tabId + "\" class=\"" + PaneClass(i) + "\">" + content + "</div>"
  }

  /** `combine_html` over the pages' texts and tab names: one tab button and one content
      pane per input, in input order, with ids `tab0`, `tab1`, ...; pane `i` holds page
      `i`'s body. */
  method CombineHtml(files: seq<(string, string)>, bodyOf: string -> Option<string>)
    returns (tabIds: seq<(string, string)>, contents: seq<(string, string)>, tabBar: string, panes: string)
    ensures |tabIds| == |files| && |contents| == |files|
    ensures forall i :: 0 <= i < |files| ==> tabIds[i] == (files[i].1, TabId(i))
    ensures forall i :: 0 <= i < |files| ==> contents[i] == (TabId(i), TabBody(files[i].0, bodyOf))
    ensures tabBar == Concat(TabButtons(tabIds))
    ensures panes == Concat(TabPanes(contents))
  {
    tabIds, contents := [], [];
    for i := 0 to |files|
      invariant |tabIds| == i && |contents| == i
      invariant forall t :: 0 <= t < i ==> tabIds[t] == (files[t].1, TabId(t))
      invariant forall t :: 0 <= t < i ==> contents[t] == (TabId(t), TabBody(files[t].0, bodyOf))
    {
      var html, tabName := files[i].0, files[i].1;
      var body := TabBody(html, bodyOf);
      var tabId := TabId(i);
      tabIds := tabIds + [(tabName, tabId)];
      contents := contents + [(tabId, body)];
    }
    tabBar := Concat(TabButtons(tabIds));
    panes := Concat(TabPanes(contents));
  }

  /** The tab bar's buttons, one per `(tab name, tab id)`, in order. */
  function TabButtons(tabIds: seq<(string, string)>): (buttons: seq<string>)
    ensures |buttons| == |tabIds|
    ensures forall i :: 0 <= i < |tabIds| ==> buttons[i] == TabButton(tabIds[i].0, tabIds[i].1)
  {
    seq(|tabIds|, i requires 0 <= i < |tabIds| => TabButton(tabIds[i].0, tabIds[i].1))
  }

  /** The content panes, one per `(tab id, body)`, in order; only the first is active. */
  function TabPanes(contents: seq<(string, string)>): (panes: seq<string>)
    ensures |panes| == |contents|
    ensures forall i :: 0 <= i < |contents| ==> panes[i] == TabPane(i, contents[i].0, contents[i].1)
  {
    seq(|contents|, i requires 0 <= i < |contents| => TabPane(i, contents[i].0, contents[i].1))
  }
}
