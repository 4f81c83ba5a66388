/** `survey_processing.py`: the script that turns the loaded survey logs into one row per
    visitor, labels rows with the visitor ids read from the file names and columns with
    the questions of a reference log, renames the columns and the nationality values
    through the mapping dictionaries, and drops the rows whose nationality maps to
    `Testing`.  The loaded logs, the id list and the two dictionaries are inputs; the
    CSV file written halfway is returned as a frame. */
module SurveyProcessing {
  import opened Wrappers
  import Strings
  import Seqs

  /** A cell or a label of a pandas frame; `None` is pandas' missing value. */
  type Cell = Option<string>

  /** One item of a survey log after `json_normalize`: the question text and the answer. */
  datatype Item = Item(question: Cell, answer: Cell)

  /** One loaded survey log: its items in file order. */
  type Record = seq<Item>

  /** A frame: row labels, column labels and the rows of cells. */
  datatype Frame = Frame(index: seq<Cell>, columns: seq<Cell>, rows: seq<seq<Cell>>) {
    predicate Valid() {
      |rows| == |index| && forall r :: 0 <= r < |rows| ==> |rows[r]| == |columns|
    }
  }

  /** Where the script stops with a pandas or Python error. */
  datatype Failure =
    | EmptyRecord             // a log without items has no `answer` column (line 18)
    | IdCountMismatch         // as many ids as logs are needed to relabel the columns (line 19)
    | TooFewRecords           // `survey_tables[100]` needs at least 101 logs (line 20)
    | QuestionCountMismatch   // the reference questions must number the longest answer list (line 20)
    | NationalityMissing      // no column is labelled `nationality` after renaming (line 35)
    | NationalityAmbiguous    // several columns are, and `df['nationality']` is a frame (line 35)

  datatype Outcome = Failed(failure: Failure) | Processed(csv: Frame, table: Frame)

  /** The log whose question texts label the columns. */
  const ReferenceRecord: nat := 100
  const Nationality := "nationality"
  const TestingValue := "Testing"

  /** The number of rows of the answers frame: pandas aligns the answer lists on their
      positions, so it has as many rows as the longest list. */
  function Width(survey: seq<Record>): (w: nat)
    ensures forall k :: 0 <= k < |survey| ==> |survey[k]| <= w
  {
    var lengths := Lengths(survey);
    assert forall k :: 0 <= k < |survey| ==> |survey[k]| == lengths[k];
    Longest(lengths)
  }

  function Lengths(survey: seq<Record>): (ls: seq<nat>)
    ensures |ls| == |survey|
    ensures forall k :: 0 <= k < |survey| ==> ls[k] == |survey[k]|
  {
    seq(|survey|, k requires 0 <= k < |survey| => |survey[k]|)
  }

  function Longest(ls: seq<nat>): (m: nat)
    ensures forall k :: 0 <= k < |ls| ==> ls[k] <= m
  {
    if ls == [] then 0
    else
      var m := Longest(ls[1..]);
      assert forall k :: 1 <= k < |ls| ==> ls[k] == ls[1..][k - 1];
      if ls[0] >= m then ls[0] else m
  }

  lemma {:induction false} LongestAttained(ls: seq<nat>)
    requires |ls| > 0
    ensures exists k :: 0 <= k < |ls| && ls[k] == Longest(ls)
  {
    if |ls| > 1 && ls[0] < Longest(ls[1..]) {
      LongestAttained(ls[1..]);
      var k :| 0 <= k < |ls| - 1 && ls[1..][k] == Longest(ls[1..]);
      assert ls[k + 1] == Longest(ls);
    } else {
      assert ls[0] == Longest(ls);
    }
  }

  /** The width is the length of some log, so no answer position is empty in every log. */
  lemma WidthAttained(survey: seq<Record>)
    requires |survey| > 0
    ensures exists k :: 0 <= k < |survey| && |survey[k]| == Width(survey)
  {
    LongestAttained(Lengths(survey));
    var k :| 0 <= k < |survey| && Lengths(survey)[k] == Width(survey);
    assert |survey[k]| == Width(survey);
  }

  /** The `j`-th answer of a log; missing past the end of a shorter log. */
  function AnswerAt(record: Record, j: nat): Cell {
    if j < |record| then record[j].answer else None
  }

  function Questions(record: Record): (qs: seq<Cell>)
    ensures |qs| == |record|
    ensures forall j :: 0 <= j < |record| ==> qs[j] == record[j].question
  {
    seq(|record|, j requires 0 <= j < |record| => record[j].question)
  }

  /** pandas `.map(d)` with a dictionary, on one value: a mapped key gets its value; an
      unmapped key, and a missing value, become missing. */
  function MapThrough(d: map<string, string>, c: Cell): Cell {
    if c.Some? && c.value in d then Some(d[c.value]) else None
  }

  function MapAll(d: map<string, string>, cs: seq<Cell>): (r: seq<Cell>)
    ensures |r| == |cs|
    ensures forall j :: 0 <= j < |cs| ==> r[j] == MapThrough(d, cs[j])
  {
    seq(|cs|, j requires 0 <= j < |cs| => MapThrough(d, cs[j]))
  }

  /** `.T`: rows become columns and labels swap places. */
  function Transpose(f: Frame): (t: Frame)
    requires f.Valid()
    ensures t.Valid()
    ensures t.index == f.columns && t.columns == f.index
    ensures forall r, c :: 0 <= r < |f.columns| && 0 <= c < |f.index| ==> t.rows[r][c] == f.rows[c][r]
  {
    Frame(f.columns, f.index,
      seq(|f.columns|, r requires 0 <= r < |f.columns| =>
        seq(|f.index|, c requires 0 <= c < |f.index| => f.rows[c][r])))
  }

  /** Transposing twice gives back the frame. */
  lemma TransposeInvolution(f: Frame)
    requires f.Valid()
    ensures Transpose(Transpose(f)) == f
  {
    var t := Transpose(Transpose(f));
    forall r | 0 <= r < |f.rows|
      ensures t.rows[r] == f.rows[r]
    {
      assert |t.rows[r]| == |f.rows[r]|;
    }
  }

  /** The cells of column `c`, top to bottom. */
  function Column(f: Frame, c: nat): (col: seq<Cell>)
    requires f.Valid() && c < |f.columns|
    ensures |col| == |f.rows|
    ensures forall r :: 0 <= r < |f.rows| ==> col[r] == f.rows[r][c]
  {
    seq(|f.rows|, r requires 0 <= r < |f.rows| => f.rows[r][c])
  }

  /** `df[label] = values` for the column at position `c`. */
  function SetColumn(f: Frame, c: nat, values: seq<Cell>): (g: Frame)
    requires f.Valid() && c < |f.columns| && |values| == |f.rows|
    ensures g.Valid() && g.index == f.index && g.columns == f.columns
    ensures forall r, j :: 0 <= r < |f.rows| && 0 <= j < |f.columns| ==>
      g.rows[r][j] == if j == c then values[r] else f.rows[r][j]
  {
    f.(rows := seq(|f.rows|, r requires 0 <= r < |f.rows| => f.rows[r][c := values[r]]))
  }

  /** `df[mask]`: the rows at the given positions, in order, with their labels. */
  function SelectRows(f: Frame, ix: seq<nat>): (g: Frame)
    requires f.Valid()
    requires forall k :: 0 <= k < |ix| ==> ix[k] < |f.rows|
    ensures g.Valid() && g.columns == f.columns
    ensures g.index == Seqs.Select(f.index, ix) && g.rows == Seqs.Select(f.rows, ix)
  {
    Frame(Seqs.Select(f.index, ix), f.columns, Seqs.Select(f.rows, ix))
  }

  /** The mapped nationality of every log, given the nationality column's position. */
  function MappedNationalities(survey: seq<Record>, c: nat, mappingCountry: map<string, string>): (ns: seq<Cell>)
    ensures |ns| == |survey|
    ensures forall k :: 0 <= k < |survey| ==> ns[k] == MapThrough(mappingCountry, AnswerAt(survey[k], c))
  {
    seq(|survey|, k requires 0 <= k < |survey| => MapThrough(mappingCountry, AnswerAt(survey[k], c)))
  }

  /** The positions of the logs that survive the `Testing` filter. */
  function KeptLogs(survey: seq<Record>, c: nat, mappingCountry: map<string, string>): seq<nat> {
    Seqs.KeptIndices(MappedNationalities(survey, c, mappingCountry), (n: Cell) => n != Some(TestingValue))
  }

  /** Every log has at least one item, so each has an `answer` column (line 18). */
  predicate NoEmptyRecord(survey: seq<Record>) {
    forall k :: 0 <= k < |survey| ==> survey[k] != []
  }

  /** Lines 17-20 go through: no empty log, one id per log, a reference log, and as many
      reference questions as answer positions. */
  predicate Reshapable(survey: seq<Record>, visitorIds: seq<Cell>) {
    && NoEmptyRecord(survey)
    && |visitorIds| == |survey| > ReferenceRecord
    && |survey[ReferenceRecord]| == Width(survey)
  }

  /** The column labels after renaming whose text is `nationality`. */
  function NationalityPositions(labels: seq<Cell>, mappingQuestions: map<string, string>): seq<nat> {
    Seqs.KeptIndices(MapAll(mappingQuestions, labels), (l: Cell) => l == Some(Nationality))
  }

  /** Lines 17-26: the answers of every log side by side, relabelled and transposed, so
      that row `k` holds the answers of log `k` under its visitor id. */
  method Reshape(survey: seq<Record>, visitorIds: seq<Cell>) returns (failure: Option<Failure>, df: Frame)
    ensures !NoEmptyRecord(survey) ==> failure == Some(EmptyRecord)
    ensures NoEmptyRecord(survey) && |visitorIds| != |survey| ==> failure == Some(IdCountMismatch)
    ensures NoEmptyRecord(survey) && |visitorIds| == |survey| <= ReferenceRecord ==>
      failure == Some(TooFewRecords)
    ensures (NoEmptyRecord(survey) && |visitorIds| == |survey| > ReferenceRecord &&
             |survey[ReferenceRecord]| != Width(survey)) ==> failure == Some(QuestionCountMismatch)
    ensures failure.None? <==> Reshapable(survey, visitorIds)
    ensures failure.None? ==>
      && df.Valid()
      && df.index == visitorIds
      && df.columns == Questions(survey[ReferenceRecord])
      && forall k, j :: 0 <= k < |survey| && 0 <= j < Width(survey) ==> df.rows[k][j] == AnswerAt(survey[k], j)
  {
    df := Frame([], [], []);
    // Lines 17-18: one column per log (`df_0`, `df_1`, ...), one row per answer position.
    if !NoEmptyRecord(survey) {
      return Some(EmptyRecord), df;
    }
    var width := Width(survey);
    df := Frame(
      seq(width, j requires 0 <= j < width => Some(Strings.NatToString(j))),
      seq(|survey|, k requires 0 <= k < |survey| => Some("df_" + Strings.NatToString(k))),
      seq(width, j requires 0 <= j < width =>
        seq(|survey|, k requires 0 <= k < |survey| => AnswerAt(survey[k], j))));

    // Line 19: the columns take the visitor ids.
    if |visitorIds| != |df.columns| {
      return Some(IdCountMismatch), df;
    }
    df := df.(columns := visitorIds);

    // Line 20: the rows take the questions of the reference log.
    if |survey| <= ReferenceRecord {
      return Some(TooFewRecords), df;
    }
    var questions := Questions(survey[ReferenceRecord]);
    if |questions| != |df.index| {
      return Some(QuestionCountMismatch), df;
    }
    df := df.(index := questions);

    // Line 26: one row per visitor from here on.
    df := Transpose(df);
    failure := None;
  }

  /** The frame's column `c` passed through the country map. */
  function MappedColumn(df: Frame, c: nat, mappingCountry: map<string, string>): seq<Cell>
    requires df.Valid() && c < |df.columns|
  {
    MapAll(mappingCountry, Column(df, c))
  }

  /** Lines 33-36: rename the columns, map the nationality column, and keep the rows whose
      mapped nationality is not `Testing`. */
  method RenameAndFilter(df: Frame, mappingQuestions: map<string, string>, mappingCountry: map<string, string>)
    returns (failure: Option<Failure>, table: Frame)
    requires df.Valid()
    ensures var ns := NationalityPositions(df.columns, mappingQuestions);
      && (|ns| == 0 <==> failure == Some(NationalityMissing))
      && (|ns| > 1 <==> failure == Some(NationalityAmbiguous))
      && (|ns| == 1 <==> failure.None?)
      && (failure.None? ==>
        && table.Valid()
        && table.columns == MapAll(mappingQuestions, df.columns)
        && var kept := Seqs.KeptIndices(MappedColumn(df, ns[0], mappingCountry), (n: Cell) => n != Some(TestingValue));
           && |table.rows| == |kept|
           && (forall t :: 0 <= t < |kept| ==> kept[t] < |df.rows| && table.index[t] == df.index[kept[t]])
           && (forall t, j :: 0 <= t < |kept| && 0 <= j < |df.columns| ==>
                 table.rows[t][j] ==
                   if j == ns[0] then MapThrough(mappingCountry, df.rows[kept[t]][j]) else df.rows[kept[t]][j]))
  {
    // Line 33: rename the columns.
    table := df.(columns := MapAll(mappingQuestions, df.columns));

    // Line 35: map the nationality column.
    var positions := Seqs.KeptIndices(table.columns, (l: Cell) => l == Some(Nationality));
    assert positions == NationalityPositions(df.columns, mappingQuestions);
    if |positions| == 0 {
      return Some(NationalityMissing), table;
    }
    if |positions| > 1 {
      return Some(NationalityAmbiguous), table;
    }
    var c := positions[0];
    var nationalities := MapAll(mappingCountry, Column(table, c));
    var mapped := SetColumn(table, c, nationalities);

    // Line 36: keep the rows whose nationality is not `Testing`.
    var mask := Seqs.KeptIndices(Column(mapped, c), (n: Cell) => n != Some(TestingValue));
    table := SelectRows(mapped, mask);
    FilteredShape(df, mappingQuestions, mappingCountry, c, table);
    failure := None;
  }

  /** The frame lines 33-36 leave behind, row by row and cell by cell. */
  lemma FilteredShape(df: Frame, mappingQuestions: map<string, string>, mappingCountry: map<string, string>,
                      c: nat, table: Frame)
    requires df.Valid() && c < |df.columns|
    requires var renamed := df.(columns := MapAll(mappingQuestions, df.columns));
      var mapped := SetColumn(renamed, c, MapAll(mappingCountry, Column(renamed, c)));
      table == SelectRows(mapped, Seqs.KeptIndices(Column(mapped, c), (n: Cell) => n != Some(TestingValue)))
    ensures table.Valid()
    ensures table.columns == MapAll(mappingQuestions, df.columns)
    ensures var kept := Seqs.KeptIndices(MappedColumn(df, c, mappingCountry), (n: Cell) => n != Some(TestingValue));
      && |table.rows| == |kept|
      && (forall t :: 0 <= t < |kept| ==> kept[t] < |df.rows| && table.index[t] == df.index[kept[t]])
      && (forall t, j :: 0 <= t < |kept| && 0 <= j < |df.columns| ==>
            table.rows[t][j] ==
              if j == c then MapThrough(mappingCountry, df.rows[kept[t]][j]) else df.rows[kept[t]][j])
  {
    var renamed := df.(columns := MapAll(mappingQuestions, df.columns));
    var nationalities := MapAll(mappingCountry, Column(renamed, c));
    assert nationalities == MappedColumn(df, c, mappingCountry);
    var mapped := SetColumn(renamed, c, nationalities);
    assert Column(mapped, c) == nationalities;
  }

  /** What a run that gets through line 36 produces: the CSV frame of line 23 and the
      filtered table. */
  predicate ProcessedFrom(survey: seq<Record>, visitorIds: seq<Cell>,
                          mappingQuestions: map<string, string>, mappingCountry: map<string, string>,
                          csv: Frame, table: Frame) {
    && Reshapable(survey, visitorIds)
    // the CSV: one row per log, labelled with its id; one column per reference question
    && csv.Valid()
    && csv.index == visitorIds
    && csv.columns == Questions(survey[ReferenceRecord])
    && (forall k, j :: 0 <= k < |survey| && 0 <= j < Width(survey) ==>
          csv.rows[k][j] == AnswerAt(survey[k], j))
    // the table: renamed columns, exactly one of them `nationality`
    && table.Valid()
    && table.columns == MapAll(mappingQuestions, Questions(survey[ReferenceRecord]))
    && |NationalityPositions(Questions(survey[ReferenceRecord]), mappingQuestions)| == 1
    // its rows: the logs whose mapped nationality is not `Testing`, in order, each
    // with its id, its answers, and its nationality mapped
    && KeptRows(survey, visitorIds, NationalityPositions(Questions(survey[ReferenceRecord]), mappingQuestions)[0],
                mappingCountry, Width(survey), table)
  }

  /** The table holds the logs whose nationality (column `c`) does not map to `Testing`, in
      order, each with its id, its answers, and its nationality mapped. */
  predicate KeptRows(survey: seq<Record>, visitorIds: seq<Cell>, c: nat, mappingCountry: map<string, string>,
                     width: nat, table: Frame)
    requires |visitorIds| == |survey|
  {
    var kept := KeptLogs(survey, c, mappingCountry);
    && |table.rows| == |kept|
    && |table.index| == |kept|
    && (forall t :: 0 <= t < |kept| ==> table.index[t] == visitorIds[kept[t]])
    && (forall t :: 0 <= t < |kept| ==> |table.rows[t]| >= width)
    && (forall t, j :: 0 <= t < |kept| && 0 <= j < width ==>
          table.rows[t][j] ==
            if j == c then MapThrough(mappingCountry, AnswerAt(survey[kept[t]], j))
            else AnswerAt(survey[kept[t]], j))
  }

  /** The script from loading to filtering; the CSV written at line 23 is the frame before
      renaming. */
  method ProcessSurvey(survey: seq<Record>, visitorIds: seq<Cell>,
                       mappingQuestions: map<string, string>, mappingCountry: map<string, string>)
    returns (outcome: Outcome)
    ensures !NoEmptyRecord(survey) ==> outcome == Failed(EmptyRecord)
    ensures NoEmptyRecord(survey) && |visitorIds| != |survey| ==> outcome == Failed(IdCountMismatch)
    ensures NoEmptyRecord(survey) && |visitorIds| == |survey| <= ReferenceRecord ==>
      outcome == Failed(TooFewRecords)
    ensures (NoEmptyRecord(survey) && |visitorIds| == |survey| > ReferenceRecord &&
             |survey[ReferenceRecord]| != Width(survey)) ==> outcome == Failed(QuestionCountMismatch)
    ensures Reshapable(survey, visitorIds) ==>
      var ns := NationalityPositions(Questions(survey[ReferenceRecord]), mappingQuestions);
      && (|ns| == 0 <==> outcome == Failed(NationalityMissing))
      && (|ns| > 1 <==> outcome == Failed(NationalityAmbiguous))
      && (|ns| == 1 <==> outcome.Processed?)
    ensures outcome.Processed? ==>
      ProcessedFrom(survey, visitorIds, mappingQuestions, mappingCountry, outcome.csv, outcome.table)
  {
    var failure, df := Reshape(survey, visitorIds);
    if failure.Some? {
      return Failed(failure.value);
    }
    // Line 23.
    var csv := df;
    var table;
    assert df.columns == Questions(survey[ReferenceRecord]);
    failure, table := RenameAndFilter(df, mappingQuestions, mappingCountry);
    if failure.Some? {
      return Failed(failure.value);
    }
    ProcessedFromSteps(survey, visitorIds, mappingQuestions, mappingCountry, df, table);
    outcome := Processed(csv, table);
  }

  /** The facts lines 17-26 and lines 33-36 establish make up a processed run. */
  lemma ProcessedFromSteps(survey: seq<Record>, visitorIds: seq<Cell>,
                           mappingQuestions: map<string, string>, mappingCountry: map<string, string>,
                           df: Frame, table: Frame)
    requires Reshapable(survey, visitorIds)
    requires df.Valid() && df.index == visitorIds && df.columns == Questions(survey[ReferenceRecord])
    requires forall k, j :: 0 <= k < |survey| && 0 <= j < Width(survey) ==> df.rows[k][j] == AnswerAt(survey[k], j)
    requires var ns := NationalityPositions(df.columns, mappingQuestions);
      && |ns| == 1
      && table.Valid()
      && table.columns == MapAll(mappingQuestions, df.columns)
      && var kept := Seqs.KeptIndices(MappedColumn(df, ns[0], mappingCountry), (n: Cell) => n != Some(TestingValue));
         && |table.rows| == |kept|
         && (forall t :: 0 <= t < |kept| ==> kept[t] < |df.rows| && table.index[t] == df.index[kept[t]])
         && (forall t, j :: 0 <= t < |kept| && 0 <= j < |df.columns| ==>
               table.rows[t][j] ==
                 if j == ns[0] then MapThrough(mappingCountry, df.rows[kept[t]][j]) else df.rows[kept[t]][j])
    ensures ProcessedFrom(survey, visitorIds, mappingQuestions, mappingCountry, df, table)
  {
    var c := NationalityPositions(df.columns, mappingQuestions)[0];
    var kept := KeptLogs(survey, c, mappingCountry);
    assert kept == Seqs.KeptIndices(MappedColumn(df, c, mappingCountry), (n: Cell) => n != Some(TestingValue)) by {
      MappedColumnOfLogs(survey, df, c, mappingCountry);
    }
    assert KeptRows(survey, visitorIds, c, mappingCountry, Width(survey), table) by {
      KeptRowsOfFrame(survey, visitorIds, df, table, c, mappingCountry, Width(survey), kept);
    }
  }

  /** Filtering the reshaped frame on its mapped column `c` keeps the rows of the logs
      whose nationality does not map to `Testing`. */
  lemma KeptRowsOfFrame(survey: seq<Record>, visitorIds: seq<Cell>, df: Frame, table: Frame, c: nat,
                        mappingCountry: map<string, string>, width: nat, kept: seq<nat>)
    requires df.Valid() && |df.columns| == width && |df.rows| == |survey| && c < |df.columns|
    requires df.index == visitorIds
    requires forall k, j :: 0 <= k < |survey| && 0 <= j < width ==> df.rows[k][j] == AnswerAt(survey[k], j)
    requires table.Valid() && |table.columns| == |df.columns|
    requires kept == KeptLogs(survey, c, mappingCountry)
    requires |table.rows| == |kept|
    requires forall t :: 0 <= t < |kept| ==> kept[t] < |df.rows| && table.index[t] == df.index[kept[t]]
    requires forall t, j :: 0 <= t < |kept| && 0 <= j < |df.columns| ==>
      table.rows[t][j] == if j == c then MapThrough(mappingCountry, df.rows[kept[t]][j]) else df.rows[kept[t]][j]
    ensures KeptRows(survey, visitorIds, c, mappingCountry, width, table)
  {
    forall t, j | 0 <= t < |kept| && 0 <= j < width
      ensures table.rows[t][j] ==
        if j == c then MapThrough(mappingCountry, AnswerAt(survey[kept[t]], j)) else AnswerAt(survey[kept[t]], j)
    {
      assert df.rows[kept[t]][j] == AnswerAt(survey[kept[t]], j);
    }
  }

  /** Mapping a column of the reshaped frame maps that answer of every log. */
  lemma MappedColumnOfLogs(survey: seq<Record>, df: Frame, c: nat, mappingCountry: map<string, string>)
    requires df.Valid() && c < |df.columns| == Width(survey) && |df.rows| == |survey|
    requires forall k, j :: 0 <= k < |survey| && 0 <= j < Width(survey) ==> df.rows[k][j] == AnswerAt(survey[k], j)
    ensures MappedColumn(df, c, mappingCountry) == MappedNationalities(survey, c, mappingCountry)
  {
  }

  /** A log is kept exactly when its nationality does not map to `Testing`. */
  lemma KeptLogsExactly(survey: seq<Record>, c: nat, mappingCountry: map<string, string>, k: nat)
    requires k < |survey|
    ensures k in KeptLogs(survey, c, mappingCountry) <==>
      MapThrough(mappingCountry, AnswerAt(survey[k], c)) != Some(TestingValue)
  {
    var kept := KeptLogs(survey, c, mappingCountry);
    if k in kept {
      var t :| 0 <= t < |kept| && kept[t] == k;
    }
  }

  /** The filter looks at the mapped value: a log answered `Testing` is dropped only when
      the country map sends `Testing` to `Testing`; a log whose nationality is missing or
      unmapped is kept. */
  lemma TestingFilterFollowsMapping(survey: seq<Record>, c: nat, mappingCountry: map<string, string>, k: nat)
    requires k < |survey|
    ensures AnswerAt(survey[k], c) == Some(TestingValue) ==>
      (k !in KeptLogs(survey, c, mappingCountry) <==>
        TestingValue in mappingCountry && mappingCountry[TestingValue] == TestingValue)
    ensures AnswerAt(survey[k], c).None? ==> k in KeptLogs(survey, c, mappingCountry)
    ensures AnswerAt(survey[k], c).Some? && AnswerAt(survey[k], c).value !in mappingCountry ==>
      k in KeptLogs(survey, c, mappingCountry)
  {
    KeptLogsExactly(survey, c, mappingCountry, k);
  }

  /** An unmapped column label becomes missing rather than keeping its text. */
  lemma UnmappedLabelBecomesMissing(mappingQuestions: map<string, string>, labels: seq<Cell>, j: nat)
    requires j < |labels| && labels[j].Some? && labels[j].value !in mappingQuestions
    ensures MapAll(mappingQuestions, labels)[j] == None
  {
  }
}
