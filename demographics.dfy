/** `survey_profile_demographics.py`: for one persona, one bar panel per demographic
    column, holding the least frequent answers of that persona's visitors with their counts,
    and one saved figure per persona that has any panel. Bar geometry, colours on the bars
    and the percentages drawn are presentation and are not modelled; the counts behind
    them are. */
module Demographics {
  import opened Wrappers
  import Strings
  import Seqs
  import opened Tables
  import Utils

  /** The colour of a persona missing from the colour map. */
  const DefaultColor := "#3366FF"
  /** A column with more distinct answers than this is not plotted. */
  const MaxDistinct: nat := 50
  /** The defaults `plot_all_profiles` leaves in place. */
  const MaxCategories: nat := 20
  const LabelLimit: nat := 40
  const Ellipsis: char := '\U{2026}'
  const FileSuffix := "_demographics.png"

  /** `safely_parse_list_string` (the definition that is in force): the elements a cell
      stands for. `literalEval` is Python's literal parser, giving the elements of the
      list-like value a text denotes, or `None` when the text is not a literal. */
  function SafelyParseListString(v: Value, literalEval: string -> Option<seq<Value>>): (r: seq<Value>)
    ensures v.List? ==> r == v.items
    ensures v.Missing? ==> r == []
    ensures v.Str? && Strings.StartsWith(v.s, "[") && Strings.EndsWith(v.s, "]") ==>
      r == literalEval(v.s).GetOr([])
    ensures v.Str? && !(Strings.StartsWith(v.s, "[") && Strings.EndsWith(v.s, "]")) ==> r == [v]
  {
    match v
    case Str(s) =>
      if Strings.StartsWith(s, "[") && Strings.EndsWith(s, "]") then
        match literalEval(s)
        case Some(items) => items
        case None => []
      else [v]
    case List(items) => items
    case Missing => []
  }

  /** Parsing a parsed cell again changes nothing, so the column loop may run over cells
      that an earlier pass already turned into lists. */
  lemma SafelyParseListStringStable(v: Value, literalEval: string -> Option<seq<Value>>)
    ensures SafelyParseListString(List(SafelyParseListString(v, literalEval)), literalEval)
         == SafelyParseListString(v, literalEval)
  {
  }

  /** `truncate`: a text longer than the limit keeps its first `limit` characters and
      gets an ellipsis. */
  function Truncate(text: string, limit: nat): (r: string)
    ensures |r| <= limit + 1
    ensures |text| <= limit ==> r == text
    ensures |text| > limit ==> |r| == limit + 1 && r[..limit] == text[..limit] && r[limit] == Ellipsis
  {
    if |text| > limit then text[..limit] + [Ellipsis] else text
  }

  /** Truncating a truncated text gives it back. */
  lemma TruncateIdempotent(text: string, limit: nat)
    ensures Truncate(Truncate(text, limit), limit) == Truncate(text, limit)
  {
    var r := Truncate(text, limit);
    if |text| > limit {
      assert r[..limit] + [Ellipsis] == r;
    }
  }

  /** The entries the filter at line 180 drops: empty text, empty lists and missing values. */
  predicate Blank(v: Value) {
    v == Str("") || v == List([]) || v == Missing
  }

  /** Lines 178-180 for one cell: parse it, explode it, drop the blank entries. */
  function CellEntries(cell: Value, literalEval: string -> Option<seq<Value>>): seq<Value> {
    Seqs.Filter(Explode(List(SafelyParseListString(cell, literalEval))), (e: Value) => !Blank(e))
  }

  /** The entries of column `j` over the given rows, row by row. */
  function ColumnEntries(rows: seq<seq<Value>>, j: nat, literalEval: string -> Option<seq<Value>>): (r: seq<Value>)
    ensures forall k :: 0 <= k < |r| ==> !Blank(r[k])
  {
    if rows == [] then []
    else
      var init := ColumnEntries(rows[..|rows| - 1], j, literalEval);
      var last := rows[|rows| - 1];
      if j < |last| then
        var more := CellEntries(last[j], literalEval);
        assert forall k :: 0 <= k < |more| ==> !Blank(more[k]) by {
          forall k | 0 <= k < |more|
            ensures !Blank(more[k])
          {
            Seqs.FilterMembership(Explode(List(SafelyParseListString(last[j], literalEval))),
                                  (e: Value) => !Blank(e), more[k]);
          }
        }
        init + more
      else init
  }

  /** `x` comes out of exploding the parsed cell of column `j` of the row. */
  predicate ExplodedFrom(row: seq<Value>, j: nat, literalEval: string -> Option<seq<Value>>, x: Value) {
    j < |row| && x in Explode(List(SafelyParseListString(row[j], literalEval)))
  }

  /** An entry is listed exactly when it is not blank and comes out of exploding the
      parsed cell of that column in some row. */
  lemma {:induction false} ColumnEntriesMembership(rows: seq<seq<Value>>, j: nat,
                                                   literalEval: string -> Option<seq<Value>>, x: Value)
    ensures x in ColumnEntries(rows, j, literalEval) <==>
      !Blank(x) && SomeRowYields(rows, j, literalEval, x)
  {
    if rows != [] {
      var init, last := rows[..|rows| - 1], rows[|rows| - 1];
      ColumnEntriesMembership(init, j, literalEval, x);
      ColumnEntriesSnoc(rows, j, literalEval);
      SomeRowYieldsSnoc(rows, j, literalEval, x);
      if j < |last| {
        CellEntriesMembership(last[j], literalEval, x);
      }
    }
  }

  /** Some row yields `x` in column `j`. */
  predicate SomeRowYields(rows: seq<seq<Value>>, j: nat, literalEval: string -> Option<seq<Value>>, x: Value) {
    exists r :: 0 <= r < |rows| && ExplodedFrom(rows[r], j, literalEval, x)
  }

  /** Some row yields `x` exactly when some earlier row or the last row does. */
  lemma SomeRowYieldsSnoc(rows: seq<seq<Value>>, j: nat, literalEval: string -> Option<seq<Value>>, x: Value)
    requires rows != []
    ensures SomeRowYields(rows, j, literalEval, x) <==>
      SomeRowYields(rows[..|rows| - 1], j, literalEval, x) || ExplodedFrom(rows[|rows| - 1], j, literalEval, x)
  {
    var init := rows[..|rows| - 1];
    if r :| 0 <= r < |rows| && ExplodedFrom(rows[r], j, literalEval, x) {
      if r < |init| {
        assert init[r] == rows[r];
      }
    }
    if r :| 0 <= r < |init| && ExplodedFrom(init[r], j, literalEval, x) {
      assert rows[r] == init[r];
    }
  }

  lemma ColumnEntriesSnoc(rows: seq<seq<Value>>, j: nat, literalEval: string -> Option<seq<Value>>)
    requires rows != []
    ensures var last := rows[|rows| - 1];
      ColumnEntries(rows, j, literalEval) ==
        ColumnEntries(rows[..|rows| - 1], j, literalEval) + (if j < |last| then CellEntries(last[j], literalEval) else [])
  {
  }

  /** The entries keep the order of the rows: those of a prefix come before those of
      the rows after it. */
  lemma {:induction false} ColumnEntriesAppend(a: seq<seq<Value>>, b: seq<seq<Value>>, j: nat,
                                               literalEval: string -> Option<seq<Value>>)
    ensures ColumnEntries(a + b, j, literalEval) == ColumnEntries(a, j, literalEval) + ColumnEntries(b, j, literalEval)
  {
    if b == [] {
      assert a + b == a;
    } else {
      var init, last := b[..|b| - 1], b[|b| - 1];
      ColumnEntriesAppend(a, init, j, literalEval);
      ColumnEntriesAppendStep(a, init, last, j, literalEval);
      Seqs.SplitLast(b);
    }
  }

  lemma ColumnEntriesAppendStep(a: seq<seq<Value>>, init: seq<seq<Value>>, last: seq<Value>, j: nat,
                                literalEval: string -> Option<seq<Value>>)
    requires ColumnEntries(a + init, j, literalEval) == ColumnEntries(a, j, literalEval) + ColumnEntries(init, j, literalEval)
    ensures ColumnEntries(a + (init + [last]), j, literalEval) ==
      ColumnEntries(a, j, literalEval) + ColumnEntries(init + [last], j, literalEval)
  {
    var more := if j < |last| then CellEntries(last[j], literalEval) else [];
    Seqs.AppendAssociative(a, init, [last]);
    ColumnEntriesSnoc(a + init + [last], j, literalEval);
    ColumnEntriesSnoc(init + [last], j, literalEval);
    assert (a + init + [last])[..|a + init|] == a + init;
    assert (init + [last])[..|init|] == init;
    Seqs.AppendAssociative(ColumnEntries(a, j, literalEval), ColumnEntries(init, j, literalEval), more);
  }

  lemma CellEntriesMembership(cell: Value, literalEval: string -> Option<seq<Value>>, x: Value)
    ensures x in CellEntries(cell, literalEval) <==>
      !Blank(x) && x in Explode(List(SafelyParseListString(cell, literalEval)))
  {
    Seqs.FilterMembership(Explode(List(SafelyParseListString(cell, literalEval))), (e: Value) => !Blank(e), x);
  }

  /** The entries of a named column; a name the table lacks has none. */
  function EntriesOf(t: Table, rows: seq<seq<Value>>, name: string, literalEval: string -> Option<seq<Value>>): seq<Value> {
    if name in t.columns then ColumnEntries(rows, ColumnIndex(t, name), literalEval) else []
  }

  /** No entry is a list, so `nunique()` can hash every entry. */
  predicate Hashable(entries: seq<Value>) {
    forall k :: 0 <= k < |entries| ==> !entries[k].List?
  }

  /** Line 183: `values.empty` is false and `nunique()` meets a list, which it cannot hash,
      so the script stops with a `TypeError`. */
  predicate Raises(entries: seq<Value>) {
    entries != [] && !Hashable(entries)
  }

  /** Line 183: a column is plotted when it has entries, all of them hashable, and at most
      50 distinct ones. */
  predicate Plottable(entries: seq<Value>) {
    entries != [] && Hashable(entries) && |Seqs.Distinct(entries)| <= MaxDistinct
  }

  /** `value_counts`: every distinct entry with the number of times it occurs. */
  function Tally(entries: seq<Value>): (r: seq<(Value, nat)>)
    ensures |r| == |Seqs.Distinct(entries)|
    ensures forall k :: 0 <= k < |r| ==> r[k] == (Seqs.Distinct(entries)[k], Seqs.Count(entries, Seqs.Distinct(entries)[k]))
  {
    var d := Seqs.Distinct(entries);
    seq(|d|, k requires 0 <= k < |d| => (d[k], Seqs.Count(entries, d[k])))
  }

  /** Lines 186-191: the tally sorted by ascending count, cut to the first `maxCategories`. */
  function Categories(entries: seq<Value>, maxCategories: nat): seq<(Value, nat)> {
    var sorted := Seqs.SortByCount(Tally(entries));
    sorted[..if maxCategories < |sorted| then maxCategories else |sorted|]
  }

  /** An element of the sorted tally is an element of the tally. */
  lemma SortedTallyMember(entries: seq<Value>, k: nat)
    requires k < |Seqs.SortByCount(Tally(entries))|
    ensures var e := Seqs.SortByCount(Tally(entries))[k];
      e.0 in entries && e.1 == Seqs.Count(entries, e.0) && e.1 >= 1
  {
    var tally := Tally(entries);
    var e := Seqs.SortByCount(tally)[k];
    assert e in multiset(Seqs.SortByCount(tally));
    assert e in tally;
    var i :| 0 <= i < |tally| && tally[i] == e;
    assert e.0 == Seqs.Distinct(entries)[i];
    Seqs.CountZero(entries, e.0);
  }

  /** The cap: as many categories as there are distinct entries, but no more than
      `maxCategories`. */
  lemma CategoriesSize(entries: seq<Value>, maxCategories: nat)
    ensures |Categories(entries, maxCategories)| ==
      if maxCategories < |Seqs.Distinct(entries)| then maxCategories else |Seqs.Distinct(entries)|
  {
  }

  /** Every kept category is an entry with its exact count, each entry is kept at most once,
      and the counts ascend. */
  lemma CategoriesCounted(entries: seq<Value>, maxCategories: nat)
    ensures var cats := Categories(entries, maxCategories);
      && (forall k :: 0 <= k < |cats| ==>
            cats[k].0 in entries && cats[k].1 == Seqs.Count(entries, cats[k].0) && cats[k].1 >= 1)
      && (forall i, j :: 0 <= i < j < |cats| ==> cats[i].0 != cats[j].0)
      && Seqs.SortedByCount(cats)
  {
    var tally := Tally(entries);
    var sorted := Seqs.SortByCount(tally);
    var cats := Categories(entries, maxCategories);
    forall k | 0 <= k < |cats|
      ensures cats[k].0 in entries && cats[k].1 == Seqs.Count(entries, cats[k].0) && cats[k].1 >= 1
    {
      SortedTallyMember(entries, k);
    }
    TallyDistinct(entries);
    forall i, j | 0 <= i < j < |cats|
      ensures cats[i].0 != cats[j].0
    {
      SortedTallyMember(entries, i);
      SortedTallyMember(entries, j);
      if cats[i].0 == cats[j].0 {
        Seqs.MultiplicityOfRepeat(sorted, i, j);
        Seqs.MultiplicityOfDistinct(tally, sorted[i]);
        assert false;
      }
    }
  }

  lemma TallyDistinct(entries: seq<Value>)
    ensures Seqs.NoDuplicates(Tally(entries))
  {
    var tally := Tally(entries);
    forall i, j | 0 <= i < j < |tally|
      ensures tally[i] != tally[j]
    {
      assert tally[i].0 == Seqs.Distinct(entries)[i];
    }
  }

  /** Sorting before cutting keeps the rarest answers: an entry left out occurs at least as
      often as every kept one. */
  lemma CategoriesLeastFrequent(entries: seq<Value>, maxCategories: nat, v: Value)
    requires v in entries
    requires forall i :: 0 <= i < |Categories(entries, maxCategories)| ==> Categories(entries, maxCategories)[i].0 != v
    ensures forall k :: 0 <= k < |Categories(entries, maxCategories)| ==>
      Categories(entries, maxCategories)[k].1 <= Seqs.Count(entries, v)
  {
    var sorted := Seqs.SortByCount(Tally(entries));
    var cats := Categories(entries, maxCategories);
    var n := SortedTallyIndex(entries, v);
    assert forall k :: 0 <= k < |cats| ==> cats[k] == sorted[k];
  }

  /** Every entry has its place in the sorted tally. */
  lemma SortedTallyIndex(entries: seq<Value>, v: Value) returns (n: nat)
    requires v in entries
    ensures n < |Seqs.SortByCount(Tally(entries))|
    ensures Seqs.SortByCount(Tally(entries))[n] == (v, Seqs.Count(entries, v))
  {
    var tally := Tally(entries);
    var sorted := Seqs.SortByCount(tally);
    var d := Seqs.Distinct(entries);
    var m :| 0 <= m < |d| && d[m] == v;
    assert tally[m] in multiset(sorted);
    n :| 0 <= n < |sorted| && sorted[n] == tally[m];
  }

  /** One panel: its title, its categories, and their labels on the y axis. */
  datatype Panel = Panel(title: string, categories: seq<(Value, nat)>, labels: seq<string>)

  /** Line 192: underscores become spaces and the first letter is capitalised. */
  function Title(column: string): (r: string)
    ensures |r| == |column|
    ensures |column| > 0 ==> r[0] == Strings.UpperChar(if column[0] == '_' then ' ' else column[0])
    ensures forall i :: 1 <= i < |column| ==>
      r[i] == if column[i] == '_' then ' ' else Strings.LowerChar(column[i])
  {
    Strings.Capitalize(Strings.ReplaceChar(column, '_', ' '))
  }

  /** Lines 220-227: every category's text, truncated. */
  function Labels(categories: seq<(Value, nat)>, labelLimit: nat): (r: seq<string>)
    ensures |r| == |categories|
    ensures forall k :: 0 <= k < |r| ==> |r[k]| <= labelLimit + 1
    ensures forall k :: 0 <= k < |r| && categories[k].0.Str? ==>
      r[k] == Truncate(categories[k].0.s, labelLimit)
    ensures forall k :: 0 <= k < |r| && !categories[k].0.Str? ==>
      r[k] == Truncate(Repr(categories[k].0), labelLimit)
  {
    seq(|categories|, k requires 0 <= k < |categories| => Truncate(Text(categories[k].0), labelLimit))
  }

  function PanelOf(column: string, entries: seq<Value>, maxCategories: nat, labelLimit: nat): Panel {
    var cats := Categories(entries, maxCategories);
    Panel(Title(column), cats, Labels(cats, labelLimit))
  }

  /** The panels for the named columns, in column order. */
  function PanelsFor(t: Table, rows: seq<seq<Value>>, names: seq<string>, maxCategories: nat, labelLimit: nat,
                     literalEval: string -> Option<seq<Value>>): seq<Panel>
  {
    Seqs.Map(Seqs.Filter(names, (n: string) => Plottable(EntriesOf(t, rows, n, literalEval))),
             (n: string) => PanelOf(n, EntriesOf(t, rows, n, literalEval), maxCategories, labelLimit))
  }

  /** Exactly the plottable columns get a panel, in column order. */
  lemma PanelsForExactly(t: Table, rows: seq<seq<Value>>, names: seq<string>, maxCategories: nat, labelLimit: nat,
                         literalEval: string -> Option<seq<Value>>)
    ensures var ps := PanelsFor(t, rows, names, maxCategories, labelLimit, literalEval);
      var kept := Seqs.KeptIndices(names, (n: string) => Plottable(EntriesOf(t, rows, n, literalEval)));
      && |ps| == |kept|
      && forall k :: 0 <= k < |ps| ==>
           ps[k] == PanelOf(names[kept[k]], EntriesOf(t, rows, names[kept[k]], literalEval), maxCategories, labelLimit)
  {
  }

  lemma PanelsForSnoc(t: Table, rows: seq<seq<Value>>, names: seq<string>, name: string, maxCategories: nat,
                      labelLimit: nat, literalEval: string -> Option<seq<Value>>)
    ensures var entries := EntriesOf(t, rows, name, literalEval);
      PanelsFor(t, rows, names + [name], maxCategories, labelLimit, literalEval)
        == PanelsFor(t, rows, names, maxCategories, labelLimit, literalEval)
           + (if Plottable(entries) then [PanelOf(name, entries, maxCategories, labelLimit)] else [])
  {
    var keep := (n: string) => Plottable(EntriesOf(t, rows, n, literalEval));
    var f := (n: string) => PanelOf(n, EntriesOf(t, rows, n, literalEval), maxCategories, labelLimit);
    Seqs.FilterSnoc(names, name, keep);
    if keep(name) {
      Seqs.MapSnoc(Seqs.Filter(names, keep), name, f);
    }
  }

  /** The rows whose cell at position `p` is the given text, in order. */
  function RowsWith(rows: seq<seq<Value>>, p: nat, value: string): seq<seq<Value>> {
    if rows == [] then []
    else
      var last := rows[|rows| - 1];
      RowsWith(rows[..|rows| - 1], p, value) + (if p < |last| && last[p] == Str(value) then [last] else [])
  }

  /** Exactly the rows holding the value are selected, in table order. */
  lemma {:induction false} RowsWithExactly(rows: seq<seq<Value>>, p: nat, value: string)
    ensures RowsWith(rows, p, value) == Seqs.Filter(rows, (row: seq<Value>) => p < |row| && row[p] == Str(value))
  {
    if rows != [] {
      RowsWithExactly(rows[..|rows| - 1], p, value);
    }
  }

  /** Line 171: the rows whose persona column holds the persona (none when the table has
      no such column, where the source raises a `KeyError` instead; the methods below
      require the column). */
  function Subset(t: Table, personaColumn: string, personaValue: string): seq<seq<Value>> {
    if personaColumn in t.columns then RowsWith(t.rows, ColumnIndex(t, personaColumn), personaValue) else []
  }

  /** Line 172: every other column, in table order. */
  function DemographicColumns(t: Table, personaColumn: string): seq<string> {
    Seqs.MapKept(t.columns, (c: string) => c != personaColumn, (c: string) => c)
  }

  /** The other columns are the table's columns without the persona column, in table order. */
  lemma DemographicColumnsExactly(t: Table, personaColumn: string)
    ensures DemographicColumns(t, personaColumn) == Seqs.Filter(t.columns, (c: string) => c != personaColumn)
    ensures personaColumn !in DemographicColumns(t, personaColumn)
    ensures forall c :: c in t.columns && c != personaColumn ==> c in DemographicColumns(t, personaColumn)
  {
    var keep := (c: string) => c != personaColumn;
    var kept := Seqs.Filter(t.columns, keep);
    Seqs.MapKeptIsMapFilter(t.columns, keep, (c: string) => c);
    assert Seqs.Map(kept, (c: string) => c) == kept;
    forall c
      ensures c in kept <==> c in t.columns && keep(c)
    {
      Seqs.FilterMembership(t.columns, keep, c);
    }
  }

  /** What `plot_demographics` draws for one persona. */
  function DemographicPanels(t: Table, personaColumn: string, personaValue: string, maxCategories: nat,
                             labelLimit: nat, literalEval: string -> Option<seq<Value>>): seq<Panel>
  {
    PanelsFor(t, Subset(t, personaColumn, personaValue), DemographicColumns(t, personaColumn),
              maxCategories, labelLimit, literalEval)
  }

  /** How a call of `plot_demographics` ends: the panels it draws, or the first column whose
      entries `nunique()` cannot hash. */
  datatype PlotResult = Drawn(panels: seq<Panel>) | Unhashable(column: string)

  /** Whether the entries of each of `names` raise at line 183. */
  function RaiseFlags(t: Table, rows: seq<seq<Value>>, names: seq<string>,
                      literalEval: string -> Option<seq<Value>>): seq<bool>
  {
    Seqs.Flags(names, (n: string) => Raises(EntriesOf(t, rows, n, literalEval)))
  }

  lemma RaiseFlagsAt(t: Table, rows: seq<seq<Value>>, names: seq<string>, literalEval: string -> Option<seq<Value>>,
                     k: nat)
    requires k < |names|
    ensures RaiseFlags(t, rows, names, literalEval)[k] == Raises(EntriesOf(t, rows, names[k], literalEval))
  {
    Seqs.FlagsAt(names, (n: string) => Raises(EntriesOf(t, rows, n, literalEval)), k);
  }

  /** `i` is the first position whose flag is set, or `|flags|` when none is. */
  lemma FirstRaisingAt(flags: seq<bool>, i: nat)
    requires i <= |flags| && true !in flags[..i]
    requires i < |flags| ==> flags[i]
    ensures Seqs.FirstWhere(flags, (b: bool) => b) == i
  {
    forall k | 0 <= k < i
      ensures !flags[k]
    {
      assert flags[..i][k] == flags[k];
    }
    Seqs.FirstWhereUnique(flags, (b: bool) => b, i);
  }

  /** The position of the first of `names` whose entries raise, or `|names|`. */
  function FirstRaising(t: Table, rows: seq<seq<Value>>, names: seq<string>,
                        literalEval: string -> Option<seq<Value>>): (i: nat)
    ensures i <= |names|
  {
    Seqs.FirstWhere(RaiseFlags(t, rows, names, literalEval), (b: bool) => b)
  }

  /** Whether a persona's plot raises: some column of its rows raises. */
  predicate PlotRaises(t: Table, personaColumn: string, literalEval: string -> Option<seq<Value>>, p: string) {
    FirstRaising(t, Subset(t, personaColumn, p), DemographicColumns(t, personaColumn), literalEval)
      < |DemographicColumns(t, personaColumn)|
  }

  /** The column at which a persona's plot raises. */
  function RaisingColumn(t: Table, personaColumn: string, literalEval: string -> Option<seq<Value>>, p: string): string
    requires PlotRaises(t, personaColumn, literalEval, p)
  {
    DemographicColumns(t, personaColumn)[FirstRaising(t, Subset(t, personaColumn, p), DemographicColumns(t, personaColumn),
                                                      literalEval)]
  }

  /** A persona's plot raises iff the entries of one of its columns raise, and it raises
      at the first such column. */
  lemma PlotRaisesExactly(t: Table, personaColumn: string, literalEval: string -> Option<seq<Value>>, p: string)
    ensures var columns := DemographicColumns(t, personaColumn);
      var rows := Subset(t, personaColumn, p);
      && (PlotRaises(t, personaColumn, literalEval, p) <==>
            exists k :: 0 <= k < |columns| && Raises(EntriesOf(t, rows, columns[k], literalEval)))
      && (PlotRaises(t, personaColumn, literalEval, p) ==> exists i ::
            && 0 <= i < |columns| && columns[i] == RaisingColumn(t, personaColumn, literalEval, p)
            && Raises(EntriesOf(t, rows, columns[i], literalEval))
            && forall k :: 0 <= k < i ==> !Raises(EntriesOf(t, rows, columns[k], literalEval)))
  {
    var columns := DemographicColumns(t, personaColumn);
    var rows := Subset(t, personaColumn, p);
    var flags := RaiseFlags(t, rows, columns, literalEval);
    var i := FirstRaising(t, rows, columns, literalEval);
    forall k | 0 <= k < |columns|
      ensures flags[k] == Raises(EntriesOf(t, rows, columns[k], literalEval))
    {
      RaiseFlagsAt(t, rows, columns, literalEval, k);
    }
    if i < |columns| {
      assert flags[i];
    }
  }

  /** `plot_demographics`: the column loop of lines 177-193, then the labels of 220-227. */
  method PlotDemographics(t: Table, personaColumn: string, personaValue: string, maxCategories: nat,
                          labelLimit: nat, literalEval: string -> Option<seq<Value>>)
    returns (outcome: PlotResult)
    requires t.Valid() && personaColumn in t.columns
    ensures outcome.Unhashable? <==> PlotRaises(t, personaColumn, literalEval, personaValue)
    ensures outcome.Unhashable? ==> outcome.column == RaisingColumn(t, personaColumn, literalEval, personaValue)
    ensures outcome.Drawn? ==>
      outcome.panels == DemographicPanels(t, personaColumn, personaValue, maxCategories, labelLimit, literalEval)
  {
    var subset := Subset(t, personaColumn, personaValue);
    var columns := DemographicColumns(t, personaColumn);
    ghost var flags := RaiseFlags(t, subset, columns, literalEval);
    var panels := [];
    for i := 0 to |columns|
      invariant true !in flags[..i]
      invariant panels == PanelsFor(t, subset, columns[..i], maxCategories, labelLimit, literalEval)
    {
      var column := columns[i];
      var entries := EntriesOf(t, subset, column, literalEval);
      RaiseFlagsAt(t, subset, columns, literalEval, i);
      Seqs.TakeSnoc(flags, i);
      Seqs.TakeSnoc(columns, i);
      PanelsForSnoc(t, subset, columns[..i], column, maxCategories, labelLimit, literalEval);
      if entries == [] {
        assert !flags[i];
        continue;
      }
      if !Hashable(entries) {
        FirstRaisingAt(flags, i);
        return Unhashable(column);
      }
      assert !flags[i];
      if |Seqs.Distinct(entries)| > MaxDistinct {
        continue;
      }
      panels := panels + [PanelOf(column, entries, maxCategories, labelLimit)];
    }
    Seqs.TakeAll(columns);
    Seqs.TakeAll(flags);
    FirstRaisingAt(flags, |columns|);
    outcome := Drawn(panels);
  }

  /** The output file of a persona: spaces become underscores. */
  function FileName(profile: string): (r: string)
    ensures Strings.EndsWith(r, FileSuffix)
    ensures |r| == |profile| + |FileSuffix|
    ensures r[|profile|..] == FileSuffix
    ensures forall i :: 0 <= i < |profile| ==> r[i] == if profile[i] == ' ' then '_' else profile[i]
  {
    Strings.ReplaceChar(profile, ' ', '_') + FileSuffix
  }

  /** Personas without underscores get files of their own. */
  lemma FileNameInjective(a: string, b: string)
    requires '_' !in a && '_' !in b
    ensures FileName(a) == FileName(b) ==> a == b
  {
    if FileName(a) == FileName(b) {
      var ra, rb := Strings.ReplaceChar(a, ' ', '_'), Strings.ReplaceChar(b, ' ', '_');
      assert ra == FileName(a)[..|a|];
      assert rb == FileName(b)[..|b|];
      Strings.ReplaceCharInjective(a, b, ' ', '_');
    }
  }

  function ColorFor(colorMap: map<string, string>, profile: string): string {
    if profile in colorMap then colorMap[profile] else DefaultColor
  }

  /** A saved figure. */
  datatype Figure = Figure(path: string, color: string, profile: string, panels: seq<Panel>)

  /** The figure saved for a persona with something to draw. */
  function FigureOf(t: Table, profileColumn: string, outputDir: string, colorMap: map<string, string>,
                    literalEval: string -> Option<seq<Value>>, p: string): Figure
  {
    Figure(Utils.JoinPath(outputDir, FileName(p)), ColorFor(colorMap, p), p,
           DemographicPanels(t, profileColumn, p, MaxCategories, LabelLimit, literalEval))
  }

  /** The figures saved for the given personas, in order. */
  function SavedFigures(t: Table, profileColumn: string, profiles: seq<string>, outputDir: string,
                        colorMap: map<string, string>, literalEval: string -> Option<seq<Value>>): seq<Figure>
  {
    Seqs.MapKept(profiles, (p: string) =>
                   DemographicPanels(t, profileColumn, p, MaxCategories, LabelLimit, literalEval) != [],
                 (p: string) => FigureOf(t, profileColumn, outputDir, colorMap, literalEval, p))
  }

  /** One figure for each persona with a panel, in order, at its file under the output
      directory, in its colour (the default one for a persona the map lacks). */
  lemma SavedFiguresExactly(t: Table, profileColumn: string, profiles: seq<string>, outputDir: string,
                            colorMap: map<string, string>, literalEval: string -> Option<seq<Value>>)
    ensures var fs := SavedFigures(t, profileColumn, profiles, outputDir, colorMap, literalEval);
      var kept := Seqs.KeptIndices(profiles, (p: string) =>
                    DemographicPanels(t, profileColumn, p, MaxCategories, LabelLimit, literalEval) != []);
      && |fs| == |kept|
      && forall k :: 0 <= k < |fs| ==>
           fs[k] == Figure(Utils.JoinPath(outputDir, FileName(profiles[kept[k]])),
                           ColorFor(colorMap, profiles[kept[k]]), profiles[kept[k]],
                           DemographicPanels(t, profileColumn, profiles[kept[k]], MaxCategories, LabelLimit, literalEval))
  {
    Seqs.MapKeptIsMapFilter(profiles, (p: string) =>
                              DemographicPanels(t, profileColumn, p, MaxCategories, LabelLimit, literalEval) != [],
                            (p: string) => FigureOf(t, profileColumn, outputDir, colorMap, literalEval, p));
  }

  lemma SavedFiguresSnoc(t: Table, profileColumn: string, profiles: seq<string>, profile: string, outputDir: string,
                         colorMap: map<string, string>, literalEval: string -> Option<seq<Value>>)
    ensures var panels := DemographicPanels(t, profileColumn, profile, MaxCategories, LabelLimit, literalEval);
      SavedFigures(t, profileColumn, profiles + [profile], outputDir, colorMap, literalEval)
        == SavedFigures(t, profileColumn, profiles, outputDir, colorMap, literalEval)
           + (if panels != [] then [FigureOf(t, profileColumn, outputDir, colorMap, literalEval, profile)] else [])
  {
    Seqs.MapKeptSnoc(profiles, profile, (p: string) =>
                       DemographicPanels(t, profileColumn, p, MaxCategories, LabelLimit, literalEval) != [],
                     (p: string) => FigureOf(t, profileColumn, outputDir, colorMap, literalEval, p));
  }

  /** How `plot_all_profiles` ends: the figures saved, and the persona and column at which
      it stopped with a `TypeError`, if it did. */
  datatype SaveResult = SaveResult(saved: seq<Figure>, failure: Option<(string, string)>)

  /** The persona loop of lines 264-269: the figures of the personas before the first one
      whose plot raises are saved, and the loop stops there. */
  function SaveOutcome(t: Table, profileColumn: string, profiles: seq<string>, outputDir: string,
                       colorMap: map<string, string>, literalEval: string -> Option<seq<Value>>): SaveResult
  {
    var i := Seqs.FirstWhere(profiles, (p: string) => PlotRaises(t, profileColumn, literalEval, p));
    SaveResult(SavedFigures(t, profileColumn, profiles[..i], outputDir, colorMap, literalEval),
               if i < |profiles| then Some((profiles[i], RaisingColumn(t, profileColumn, literalEval, profiles[i])))
               else None)
  }

  /** The loop finishes iff no persona's plot raises, and then it has saved `SavedFigures`
      of all of them. */
  lemma SaveOutcomeFinishes(t: Table, profileColumn: string, profiles: seq<string>, outputDir: string,
                            colorMap: map<string, string>, literalEval: string -> Option<seq<Value>>)
    ensures var r := SaveOutcome(t, profileColumn, profiles, outputDir, colorMap, literalEval);
      && (r.failure.None? <==> forall k :: 0 <= k < |profiles| ==> !PlotRaises(t, profileColumn, literalEval, profiles[k]))
      && (r.failure.None? ==> r.saved == SavedFigures(t, profileColumn, profiles, outputDir, colorMap, literalEval))
  {
    var i := Seqs.FirstWhere(profiles, (p: string) => PlotRaises(t, profileColumn, literalEval, p));
    if i < |profiles| {
      assert PlotRaises(t, profileColumn, literalEval, profiles[i]);
    } else {
      assert profiles[..i] == profiles;
    }
  }

  /** Otherwise the loop stops at the first persona whose plot raises, naming it and the
      column, with the figures of the personas before it saved. */
  lemma SaveOutcomeStops(t: Table, profileColumn: string, profiles: seq<string>, outputDir: string,
                         colorMap: map<string, string>, literalEval: string -> Option<seq<Value>>)
    ensures var r := SaveOutcome(t, profileColumn, profiles, outputDir, colorMap, literalEval);
      r.failure.Some? ==> exists i ::
        && 0 <= i < |profiles| && PlotRaises(t, profileColumn, literalEval, profiles[i])
        && (forall k :: 0 <= k < i ==> !PlotRaises(t, profileColumn, literalEval, profiles[k]))
        && r.failure.value == (profiles[i], RaisingColumn(t, profileColumn, literalEval, profiles[i]))
        && r.saved == SavedFigures(t, profileColumn, profiles[..i], outputDir, colorMap, literalEval)
  {
    var i := Seqs.FirstWhere(profiles, (p: string) => PlotRaises(t, profileColumn, literalEval, p));
    if i < |profiles| {
      assert PlotRaises(t, profileColumn, literalEval, profiles[i]);
    }
  }

  /** The outcome when persona `i` is the first whose plot raises. */
  lemma SaveOutcomeAt(t: Table, profileColumn: string, profiles: seq<string>, i: nat, outputDir: string,
                      colorMap: map<string, string>, literalEval: string -> Option<seq<Value>>)
    requires i < |profiles| && PlotRaises(t, profileColumn, literalEval, profiles[i])
    requires forall k :: 0 <= k < i ==> !PlotRaises(t, profileColumn, literalEval, profiles[k])
    ensures SaveOutcome(t, profileColumn, profiles, outputDir, colorMap, literalEval)
      == SaveResult(SavedFigures(t, profileColumn, profiles[..i], outputDir, colorMap, literalEval),
                    Some((profiles[i], RaisingColumn(t, profileColumn, literalEval, profiles[i]))))
  {
    Seqs.FirstWhereUnique(profiles, (p: string) => PlotRaises(t, profileColumn, literalEval, p), i);
  }

  /** The outcome when no persona's plot raises. */
  lemma SaveOutcomeAll(t: Table, profileColumn: string, profiles: seq<string>, outputDir: string,
                       colorMap: map<string, string>, literalEval: string -> Option<seq<Value>>)
    requires forall k :: 0 <= k < |profiles| ==> !PlotRaises(t, profileColumn, literalEval, profiles[k])
    ensures SaveOutcome(t, profileColumn, profiles, outputDir, colorMap, literalEval)
      == SaveResult(SavedFigures(t, profileColumn, profiles, outputDir, colorMap, literalEval), None)
  {
    Seqs.FirstWhereUnique(profiles, (p: string) => PlotRaises(t, profileColumn, literalEval, p), |profiles|);
    assert profiles[..|profiles|] == profiles;
  }

  /** Whether each persona's plot raises. */
  function PersonaFlags(t: Table, profileColumn: string, literalEval: string -> Option<seq<Value>>,
                        profiles: seq<string>): seq<bool>
  {
    Seqs.Flags(profiles, (p: string) => PlotRaises(t, profileColumn, literalEval, p))
  }

  lemma PersonaFlagsAt(t: Table, profileColumn: string, literalEval: string -> Option<seq<Value>>,
                       profiles: seq<string>, k: nat)
    requires k < |profiles|
    ensures PersonaFlags(t, profileColumn, literalEval, profiles)[k] == PlotRaises(t, profileColumn, literalEval, profiles[k])
  {
    Seqs.FlagsAt(profiles, (p: string) => PlotRaises(t, profileColumn, literalEval, p), k);
  }

  /** No flag before `i` is set: no persona before `i` raises. */
  lemma NoneRaiseBefore(t: Table, profileColumn: string, literalEval: string -> Option<seq<Value>>,
                        profiles: seq<string>, i: nat)
    requires i <= |profiles| && true !in PersonaFlags(t, profileColumn, literalEval, profiles)[..i]
    ensures forall k :: 0 <= k < i ==> !PlotRaises(t, profileColumn, literalEval, profiles[k])
  {
    var flags := PersonaFlags(t, profileColumn, literalEval, profiles);
    forall k | 0 <= k < i
      ensures !PlotRaises(t, profileColumn, literalEval, profiles[k])
    {
      assert flags[..i][k] == flags[k];
      PersonaFlagsAt(t, profileColumn, literalEval, profiles, k);
    }
  }

  /** `plot_all_profiles`: one figure per persona, saved under the output directory when
      the persona has anything to draw, until a persona's plot raises. */
  method PlotAllProfiles(t: Table, profileColumn: string, profiles: seq<string>, outputDir: string,
                         colorMap: map<string, string>, literalEval: string -> Option<seq<Value>>)
    returns (saved: seq<Figure>, failure: Option<(string, string)>)
    requires t.Valid() && profileColumn in t.columns
    ensures SaveResult(saved, failure) == SaveOutcome(t, profileColumn, profiles, outputDir, colorMap, literalEval)
  {
    ghost var flags := PersonaFlags(t, profileColumn, literalEval, profiles);
    saved := [];
    for i := 0 to |profiles|
      invariant true !in flags[..i]
      invariant saved == SavedFigures(t, profileColumn, profiles[..i], outputDir, colorMap, literalEval)
    {
      var profile := profiles[i];
      var color := ColorFor(colorMap, profile);
      var path := Utils.JoinPath(outputDir, FileName(profile));
      var outcome := PlotDemographics(t, profileColumn, profile, MaxCategories, LabelLimit, literalEval);
      PersonaFlagsAt(t, profileColumn, literalEval, profiles, i);
      if outcome.Unhashable? {
        NoneRaiseBefore(t, profileColumn, literalEval, profiles, i);
        SaveOutcomeAt(t, profileColumn, profiles, i, outputDir, colorMap, literalEval);
        return saved, Some((profile, outcome.column));
      }
      Seqs.TakeSnoc(flags, i);
      Seqs.TakeSnoc(profiles, i);
      SavedFiguresSnoc(t, profileColumn, profiles[..i], profile, outputDir, colorMap, literalEval);
      if outcome.panels != [] {
        saved := saved + [Figure(path, color, profile, outcome.panels)];
      }
    }
    Seqs.TakeAll(profiles);
    Seqs.TakeAll(flags);
    NoneRaiseBefore(t, profileColumn, literalEval, profiles, |profiles|);
    SaveOutcomeAll(t, profileColumn, profiles, outputDir, colorMap, literalEval);
    failure := None;
  }
}
