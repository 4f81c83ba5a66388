/** `survey_profiles_vis.py`: one grouped bar chart per survey question, with one trace per
    visitor profile counting how often that profile chose each answer option, on an option
    axis shared by all profiles; plus the overview at the top of the exported report
    (number of visitors, visitors per profile).  The survey table, the list parser
    `str_to_list` and the colour palette are inputs; the rendering of the charts and of
    the HTML page is not modelled. */
module ProfilesVis {
  import opened Wrappers
  import Seqs
  import opened Tables
  import Strings

  const ProfileColumn := "profile"

  /** Lines 14-29: the columns the script keeps, the profile column last. */
  const SelectedColumns: seq<string> := [
    "nationality", "gender_identity", "age", "education_level", "visit_type", "visit_purpose",
    "religious", "visited_memorial_before", "personal_connection_nazi_history",
    "known_persecuted_groups_open", "knowledge_ww2", "technologies_used", "profile"]

  /** Lines 36-41: the columns whose text holds lists. */
  const ListColumns: seq<string> := ["visit_purpose", "known_persecuted_groups_open", "technologies_used"]

  /** Plotly's `qualitative.Plotly` palette, the colours handed out to the profiles. */
  const Palette: seq<string> := [
    "#636EFA", "#EF553B", "#00CC96", "#AB63FA", "#FFA15A",
    "#19D3F3", "#FF6692", "#B6E880", "#FF97FF", "#FECB52"]

  // ---------------------------------------------------------------------------------
  // The working table (lines 13-44)
  // ---------------------------------------------------------------------------------

  /** Line 30, `data[columns]`: the named columns in the given order; a name the table
      lacks is a `KeyError`. */
  function SelectColumns(t: Table, names: seq<string>): (r: Option<Table>)
    requires t.Valid()
    ensures r.None? <==> exists k :: 0 <= k < |names| && names[k] !in t.columns
    ensures r.Some? ==>
      && r.value.columns == names
      && |r.value.rows| == |t.rows|
      && forall i, k :: 0 <= i < |t.rows| && 0 <= k < |names| ==>
           |r.value.rows[i]| == |names| && r.value.rows[i][k] == t.rows[i][ColumnIndex(t, names[k])]
  {
    if exists k :: 0 <= k < |names| && names[k] !in t.columns then None
    else
      Some(Table(names, seq(|t.rows|, i requires 0 <= i < |t.rows| =>
        seq(|names|, k requires 0 <= k < |names| => t.rows[i][ColumnIndex(t, names[k])]))))
  }

  /** `f` applied `n` times. */
  function Repeat(f: Value -> Value, n: nat, v: Value): Value {
    if n == 0 then v else f(Repeat(f, n - 1, v))
  }

  /** Lines 43-44: every listed column passed through the list parser, in place; a column
      listed twice is parsed twice, and a column the table lacks is a `KeyError`. */
  method ConvertListColumns(t: Table, names: seq<string>, strToList: Value -> Value) returns (r: Option<Table>)
    requires t.Valid()
    ensures r.None? <==> exists k :: 0 <= k < |names| && names[k] !in t.columns
    ensures r.Some? ==>
      && r.value.Valid()
      && r.value.columns == t.columns
      && |r.value.rows| == |t.rows|
      && forall i, j :: 0 <= i < |t.rows| && 0 <= j < |t.columns| ==>
           r.value.rows[i][j] == Repeat(strToList, Seqs.Count(names, t.columns[j]), t.rows[i][j])
  {
    var df := t;
    for k := 0 to |names|
      invariant df.Valid() && df.columns == t.columns && |df.rows| == |t.rows|
      invariant forall n :: 0 <= n < k ==> names[n] in t.columns
      invariant forall i, j :: 0 <= i < |t.rows| && 0 <= j < |t.columns| ==>
        df.rows[i][j] == Repeat(strToList, Seqs.Count(names[..k], t.columns[j]), t.rows[i][j])
    {
      if names[k] !in df.columns {
        return None;
      }
      var c := ColumnIndex(df, names[k]);
      ghost var before := df;
      df := ApplyToColumn(df, c, strToList);
      ParseStep(t, before, df, names, k, c, strToList);
    }
    Seqs.TakeAll(names);
    r := Some(df);
  }

  /** `df[col] = df[col].apply(f)` for the column at position `c`. */
  function ApplyToColumn(t: Table, c: nat, f: Value -> Value): (r: Table)
    requires t.Valid() && c < |t.columns|
    ensures r.Valid() && r.columns == t.columns && |r.rows| == |t.rows|
    ensures forall i, j :: 0 <= i < |t.rows| && 0 <= j < |t.columns| ==>
      r.rows[i][j] == if j == c then f(t.rows[i][j]) else t.rows[i][j]
  {
    t.(rows := seq(|t.rows|, i requires 0 <= i < |t.rows| => t.rows[i][c := f(t.rows[i][c])]))
  }

  /** One more listed column parsed: its cells take one more parse, the others none. */
  lemma ParseStep(t: Table, before: Table, after: Table, names: seq<string>, k: nat, c: nat, f: Value -> Value)
    requires t.Valid() && before.Valid() && before.columns == t.columns && |before.rows| == |t.rows|
    requires k < |names| && c < |t.columns| && t.columns[c] == names[k]
    requires forall i, j :: 0 <= i < |t.rows| && 0 <= j < |t.columns| ==>
      before.rows[i][j] == Repeat(f, Seqs.Count(names[..k], t.columns[j]), t.rows[i][j])
    requires after == ApplyToColumn(before, c, f)
    ensures forall i, j :: 0 <= i < |t.rows| && 0 <= j < |t.columns| ==>
      after.rows[i][j] == Repeat(f, Seqs.Count(names[..k + 1], t.columns[j]), t.rows[i][j])
  {
    CountStep(names, k, t.columns, c);
  }

  /** Parsing the column at `c` adds one parse to that column and to no other. */
  lemma CountStep(names: seq<string>, k: nat, columns: seq<string>, c: nat)
    requires k < |names| && c < |columns| && columns[c] == names[k] && Seqs.NoDuplicates(columns)
    ensures forall j :: 0 <= j < |columns| ==>
      Seqs.Count(names[..k + 1], columns[j]) == Seqs.Count(names[..k], columns[j]) + (if j == c then 1 else 0)
  {
    Seqs.TakeSnoc(names, k);
    forall j | 0 <= j < |columns|
      ensures Seqs.Count(names[..k + 1], columns[j]) == Seqs.Count(names[..k], columns[j]) + (if j == c then 1 else 0)
    {
      assert names[..k + 1][..k] == names[..k];
    }
  }

  /** Lines 33 and 53: every column except the profile column, in table order. */
  function QuestionColumns(columns: seq<string>): seq<string> {
    Seqs.Filter(columns, (c: string) => c != ProfileColumn)
  }

  /** The question columns are exactly the columns other than `profile`. */
  lemma QuestionColumnsExactly(columns: seq<string>, q: string)
    ensures q in QuestionColumns(columns) <==> q in columns && q != ProfileColumn
  {
    Seqs.FilterMembership(columns, (c: string) => c != ProfileColumn, q);
  }

  /** The selected columns give twelve questions, `nationality` first. */
  lemma SelectedQuestions()
    ensures |QuestionColumns(SelectedColumns)| == 12
    ensures QuestionColumns(SelectedColumns)[0] == "nationality"
    ensures ProfileColumn !in QuestionColumns(SelectedColumns)
  {
    var keep := (c: string) => c != ProfileColumn;
    var s := SelectedColumns;
    assert |ProfileColumn| == 7;
    forall i | 0 <= i < 12
      ensures keep(s[i])
    {
      assert |s[i]| != 7;
    }
    KeptAllOfPrefix(s, 12, keep);
    FilterDropLast(s, keep);
    assert QuestionColumns(s) == s[..12];
  }

  /** A last element that fails the test adds nothing to the filter. */
  lemma FilterDropLast<T>(s: seq<T>, keep: T -> bool)
    requires s != [] && !keep(s[|s| - 1])
    ensures Seqs.Filter(s, keep) == Seqs.Filter(s[..|s| - 1], keep)
  {
    assert Seqs.Filter(s, keep) == Seqs.Filter(s[..|s| - 1], keep) + [];
  }

  /** When a prefix passes, the filter keeps all of it. */
  lemma KeptAllOfPrefix<T>(s: seq<T>, n: nat, keep: T -> bool)
    requires n <= |s|
    requires forall i :: 0 <= i < n ==> keep(s[i])
    ensures Seqs.Filter(s[..n], keep) == s[..n]
  {
    var p := s[..n];
    forall i | 0 <= i < |p|
      ensures keep(p[i])
    {
      assert p[i] == s[i];
    }
    KeptAll(p, keep);
  }

  /** When every element passes, the filter keeps the whole sequence. */
  lemma {:induction false} KeptAll<T>(s: seq<T>, keep: T -> bool)
    requires forall i :: 0 <= i < |s| ==> keep(s[i])
    ensures Seqs.Filter(s, keep) == s
  {
    if s != [] {
      var init, last := s[..|s| - 1], s[|s| - 1];
      forall i | 0 <= i < |init|
        ensures keep(init[i])
      {
        assert init[i] == s[i];
      }
      KeptAll(init, keep);
      Seqs.FilterSnoc(init, last, keep);
      assert init + [last] == s;
    }
  }

  /** The profile column, top to bottom. */
  function ProfileValues(t: Table): (vs: seq<Value>)
    requires t.Valid() && ProfileColumn in t.columns
    ensures |vs| == |t.rows|
    ensures forall i :: 0 <= i < |t.rows| ==> vs[i] == t.rows[i][ColumnIndex(t, ProfileColumn)]
  {
    var c := ColumnIndex(t, ProfileColumn);
    seq(|t.rows|, i requires 0 <= i < |t.rows| => t.rows[i][c])
  }

  /** Lines 34 and 54, `df["profile"].unique()`: every profile value once, in order of first
      appearance, a missing one included; a list in the column cannot be hashed. */
  function Profiles(t: Table): (r: Option<seq<Value>>)
    requires t.Valid() && ProfileColumn in t.columns
    ensures r.None? <==> exists i :: 0 <= i < |t.rows| && ProfileValues(t)[i].List?
    ensures r.Some? ==>
      && Seqs.NoDuplicates(r.value)
      && (forall v :: v in r.value <==> v in ProfileValues(t))
      && Seqs.InFirstAppearanceOrder(ProfileValues(t), r.value)
  {
    var vs := ProfileValues(t);
    if exists i :: 0 <= i < |t.rows| && vs[i].List? then None
    else
      Seqs.DistinctOrder(vs);
      Some(Seqs.Distinct(vs))
  }

  // ---------------------------------------------------------------------------------
  // Profile colours (line 57)
  // ---------------------------------------------------------------------------------

  /** `{k: v for k, v in zip(keys, values)}`: pairs up to the shorter list, a later key
      overwriting an earlier one. */
  function ZipMap<K, V>(keys: seq<K>, values: seq<V>): map<K, V>
    decreases |keys|
  {
    var n := if |keys| < |values| then |keys| else |values|;
    if n == 0 then map[] else ZipMap(keys[..n - 1], values[..n - 1])[keys[n - 1] := values[n - 1]]
  }

  /** The keys of the zipped map are the keys that found a value. */
  lemma {:induction false} ZipMapDomain<K, V>(keys: seq<K>, values: seq<V>, x: K)
    ensures x in ZipMap(keys, values) <==>
      exists k :: 0 <= k < |keys| && k < |values| && keys[k] == x
    decreases |keys|
  {
    var n := if |keys| < |values| then |keys| else |values|;
    if n > 0 {
      ZipMapDomain(keys[..n - 1], values[..n - 1], x);
      if exists k :: 0 <= k < |keys| && k < |values| && keys[k] == x {
        var k :| 0 <= k < |keys| && k < |values| && keys[k] == x;
        if k < n - 1 {
          assert keys[..n - 1][k] == x;
        }
      }
    }
  }

  /** With distinct keys, each key that found a value keeps it. */
  lemma {:induction false} ZipMapLookup<K, V>(keys: seq<K>, values: seq<V>, k: nat)
    requires Seqs.NoDuplicates(keys) && k < |keys| && k < |values|
    ensures keys[k] in ZipMap(keys, values) && ZipMap(keys, values)[keys[k]] == values[k]
    decreases |keys|
  {
    var n := if |keys| < |values| then |keys| else |values|;
    if k < n - 1 {
      assert keys[..n - 1][k] == keys[k];
      ZipMapLookup(keys[..n - 1], values[..n - 1], k);
      assert keys[k] != keys[n - 1];
    }
  }

  /** The colour of every profile, handed out in profile order. */
  function ColorMap(profiles: seq<Value>): map<Value, string> {
    ZipMap(profiles, Palette)
  }

  /** Profile `k` gets the `k`-th colour, and only the first ten profiles get one. */
  lemma ColorMapAssigns(profiles: seq<Value>, k: nat)
    requires Seqs.NoDuplicates(profiles) && k < |profiles|
    ensures profiles[k] in ColorMap(profiles) <==> k < |Palette|
    ensures k < |Palette| ==> ColorMap(profiles)[profiles[k]] == Palette[k]
  {
    ZipMapDomain(profiles, Palette, profiles[k]);
    if k < |Palette| {
      ZipMapLookup(profiles, Palette, k);
    }
  }

  // ---------------------------------------------------------------------------------
  // One chart (lines 118-169)
  // ---------------------------------------------------------------------------------

  /** A row of `df[["profile", question]]`: the profile and the answer. */
  type Response = (Value, Value)

  /** Line 120: the profile and the answer of every visitor, top to bottom. */
  function Pairs(t: Table, question: string): (ps: seq<Response>)
    requires t.Valid() && ProfileColumn in t.columns && question in t.columns
    ensures |ps| == |t.rows|
    ensures forall i :: 0 <= i < |t.rows| ==>
      ps[i] == (t.rows[i][ColumnIndex(t, ProfileColumn)], t.rows[i][ColumnIndex(t, question)])
  {
    var p, q := ColumnIndex(t, ProfileColumn), ColumnIndex(t, question);
    seq(|t.rows|, i requires 0 <= i < |t.rows| => (t.rows[i][p], t.rows[i][q]))
  }

  predicate HasList(ps: seq<Response>) {
    exists i :: 0 <= i < |ps| && ps[i].1.List?
  }

  /** `DataFrame.explode(question)`: each row once per element of its answer list, with
      its profile; an empty list leaves one row with a missing answer. */
  function ExplodeRows(ps: seq<Response>): seq<Response> {
    if ps == [] then []
    else
      var last := ps[|ps| - 1];
      ExplodeRows(ps[..|ps| - 1]) + WithProfile(last.0, Explode(last.1))
  }

  /** The rows `explode` makes of one row: its profile with each exploded answer, in order. */
  function WithProfile(profile: Value, answers: seq<Value>): seq<Response> {
    if answers == [] then []
    else WithProfile(profile, answers[..|answers| - 1]) + [(profile, answers[|answers| - 1])]
  }

  lemma {:induction false} WithProfileMembership(profile: Value, answers: seq<Value>, x: Response)
    ensures x in WithProfile(profile, answers) <==> x.0 == profile && x.1 in answers
  {
    if answers != [] {
      var init := answers[..|answers| - 1];
      WithProfileMembership(profile, init, x);
      assert answers == init + [answers[|answers| - 1]];
    }
  }

  /** Exploding never loses a row: each row gives at least one. */
  lemma {:induction false} ExplodeRowsLength(ps: seq<Response>)
    ensures |ExplodeRows(ps)| >= |ps|
  {
    if ps != [] {
      ExplodeRowsLength(ps[..|ps| - 1]);
    }
  }

  /** Exploding a column without lists changes nothing, so the test at line 124 only
      skips work. */
  lemma {:induction false} ExplodeRowsWithoutLists(ps: seq<Response>)
    requires !HasList(ps)
    ensures ExplodeRows(ps) == ps
  {
    if ps != [] {
      var init, last := ps[..|ps| - 1], ps[|ps| - 1];
      assert !HasList(init) by {
        assert forall i :: 0 <= i < |init| ==> init[i] == ps[i];
      }
      ExplodeRowsWithoutLists(init);
      assert !last.1.List?;
      assert WithProfile(last.0, Explode(last.1)) == [last] by {
        assert Explode(last.1) == [last.1];
        assert WithProfile(last.0, [last.1]) == WithProfile(last.0, []) + [(last.0, last.1)];
      }
      Seqs.SplitLast(ps);
    }
  }

  /** `x` is one of the rows `explode` makes of `p`: its profile with one element of its
      answer list, or with its scalar answer, or missing for an empty list. */
  predicate ExplodesTo(p: Response, x: Response) {
    x.0 == p.0 && x.1 in Explode(p.1)
  }

  /** Some row of `ps` explodes to `x`. */
  predicate SomeRowExplodesTo(ps: seq<Response>, x: Response) {
    exists i :: 0 <= i < |ps| && ExplodesTo(ps[i], x)
  }

  lemma SomeRowExplodesToSnoc(ps: seq<Response>, x: Response)
    requires ps != []
    ensures SomeRowExplodesTo(ps, x) <==>
      SomeRowExplodesTo(ps[..|ps| - 1], x) || ExplodesTo(ps[|ps| - 1], x)
  {
    var init := ps[..|ps| - 1];
    if i :| 0 <= i < |ps| && ExplodesTo(ps[i], x) {
      if i < |init| {
        assert init[i] == ps[i];
      }
    }
    if i :| 0 <= i < |init| && ExplodesTo(init[i], x) {
      assert ps[i] == init[i];
    }
  }

  /** A row comes out of `explode` exactly when it pairs the profile of some input row
      with an element of that row's exploded answer. */
  lemma {:induction false} ExplodeRowsMembership(ps: seq<Response>, x: Response)
    ensures x in ExplodeRows(ps) <==> SomeRowExplodesTo(ps, x)
  {
    if ps != [] {
      var init, last := ps[..|ps| - 1], ps[|ps| - 1];
      ExplodeRowsMembership(init, x);
      SomeRowExplodesToSnoc(ps, x);
      WithProfileMembership(last.0, Explode(last.1), x);
    }
  }

  /** `explode` keeps the order of the rows: the rows made of a prefix come before the rows
      made of what follows it. */
  lemma {:induction false} ExplodeRowsAppend(a: seq<Response>, b: seq<Response>)
    ensures ExplodeRows(a + b) == ExplodeRows(a) + ExplodeRows(b)
  {
    if b == [] {
      assert a + b == a;
    } else {
      var init, last := b[..|b| - 1], b[|b| - 1];
      ExplodeRowsAppend(a, init);
      ExplodeRowsAppendStep(a, init, last);
      Seqs.SplitLast(b);
    }
  }

  lemma ExplodeRowsSnoc(ps: seq<Response>, last: Response)
    ensures ExplodeRows(ps + [last]) == ExplodeRows(ps) + WithProfile(last.0, Explode(last.1))
  {
    assert (ps + [last])[..|ps|] == ps;
  }

  lemma ExplodeRowsAppendStep(a: seq<Response>, init: seq<Response>, last: Response)
    requires ExplodeRows(a + init) == ExplodeRows(a) + ExplodeRows(init)
    ensures ExplodeRows(a + (init + [last])) == ExplodeRows(a) + ExplodeRows(init + [last])
  {
    var m := WithProfile(last.0, Explode(last.1));
    Seqs.AppendAssociative(a, init, [last]);
    ExplodeRowsSnoc(a + init, last);
    ExplodeRowsSnoc(init, last);
    Seqs.AppendAssociative(ExplodeRows(a), ExplodeRows(init), m);
  }

  /** Lines 124-128: the answers, exploded when some answer is a list, without the missing
      ones. */
  function Responses(ps: seq<Response>): (rs: seq<Response>)
    ensures forall k :: 0 <= k < |rs| ==> !rs[k].1.Missing?
  {
    Seqs.Filter(if HasList(ps) then ExplodeRows(ps) else ps, (r: Response) => !r.1.Missing?)
  }

  /** A response is kept exactly when its answer is present and it pairs the profile of
      some visitor with an element of that visitor's exploded answer. */
  lemma ResponsesMembership(ps: seq<Response>, x: Response)
    ensures x in Responses(ps) <==> !x.1.Missing? && SomeRowExplodesTo(ps, x)
  {
    if !HasList(ps) {
      ExplodeRowsWithoutLists(ps);
    }
    ExplodeRowsMembership(ps, x);
    Seqs.FilterMembership(if HasList(ps) then ExplodeRows(ps) else ps, (r: Response) => !r.1.Missing?, x);
  }

  /** Line 131: grouping hashes the profile and the answer of every response. */
  predicate Hashable(rs: seq<Response>) {
    forall k :: 0 <= k < |rs| ==> !rs[k].0.List? && !rs[k].1.List?
  }

  /** Responses that can be grouped: every answer is text. */
  predicate Answered(rs: seq<Response>) {
    forall k :: 0 <= k < |rs| ==> rs[k].1.Str?
  }

  function AnswerText(v: Value): string {
    if v.Str? then v.s else ""
  }

  function AnswerTexts(rs: seq<Response>): seq<string> {
    Seqs.Map(rs, (r: Response) => AnswerText(r.1))
  }

  /** Line 138: the answer options, sorted, each once. */
  function Options(rs: seq<Response>): seq<string> {
    Seqs.SortStrings(Seqs.Distinct(AnswerTexts(rs)))
  }

  /** The option axis is sorted, lists each option once, and lists every answer text. */
  lemma OptionsAxis(rs: seq<Response>)
    ensures Seqs.SortedStrings(Options(rs)) && Seqs.NoDuplicates(Options(rs))
    ensures forall o :: o in Options(rs) <==> o in AnswerTexts(rs)
  {
    var d := Seqs.Distinct(AnswerTexts(rs));
    var s := Seqs.SortStrings(d);
    Seqs.NoDuplicatesOfPermutation(s, d);
    assert forall o :: o in s <==> o in multiset(d);
  }

  /** The options are exactly the answers given, and the axis strictly ascends. */
  lemma OptionsExactly(rs: seq<Response>, o: string)
    requires Answered(rs)
    ensures o in Options(rs) <==> exists k :: 0 <= k < |rs| && rs[k].1 == Str(o)
    ensures forall i, j :: 0 <= i < j < |Options(rs)| ==> !Strings.LessEq(Options(rs)[j], Options(rs)[i])
  {
    OptionsAxis(rs);
    var texts := AnswerTexts(rs);
    if o in texts {
      var k :| 0 <= k < |texts| && texts[k] == o;
      assert rs[k].1 == Str(o);
    }
    if exists k :: 0 <= k < |rs| && rs[k].1 == Str(o) {
      var k :| 0 <= k < |rs| && rs[k].1 == Str(o);
      assert texts[k] == o;
    }
    var options := Options(rs);
    forall i, j | 0 <= i < j < |options|
      ensures !Strings.LessEq(options[j], options[i])
    {
      Seqs.SortedDistinctStrictly(options, i, j);
    }
  }

  /** The (profile, option) pairs of one profile, one per option. */
  function Keys(profile: Value, options: seq<string>): seq<Response> {
    Seqs.Map(options, (o: string) => (profile, Str(o)))
  }

  /** Lines 131 and 143-147: for each option, how many responses of the profile chose it;
      zero throughout for a missing profile, whose rows the grouping drops. */
  function OptionCounts(rs: seq<Response>, profile: Value, options: seq<string>): (ys: seq<nat>)
    ensures |ys| == |options|
  {
    if profile.Missing? then seq(|options|, k => 0)
    else Seqs.CountsOf(Seqs.Filter(rs, (r: Response) => r.0 == profile), Keys(profile, options))
  }

  /** Each count is the number of responses with that profile and that answer. */
  lemma OptionCountsExact(rs: seq<Response>, profile: Value, options: seq<string>, k: nat)
    requires k < |options|
    ensures OptionCounts(rs, profile, options)[k] ==
      if profile.Missing? then 0 else Seqs.Count(rs, (profile, Str(options[k])))
  {
    if !profile.Missing? {
      Seqs.CountFilter(rs, (r: Response) => r.0 == profile, (profile, Str(options[k])));
    }
  }

  /** An option gets a zero exactly when the profile never chose it. */
  lemma OptionCountsZero(rs: seq<Response>, profile: Value, options: seq<string>, k: nat)
    requires k < |options|
    ensures OptionCounts(rs, profile, options)[k] == 0 <==>
      profile.Missing? || (profile, Str(options[k])) !in rs
  {
    OptionCountsExact(rs, profile, options, k);
    Seqs.CountZero(rs, (profile, Str(options[k])));
  }

  /** One profile's counts add up to its number of responses: every response lands on
      exactly one option. */
  lemma OptionCountsSum(rs: seq<Response>, profile: Value)
    requires Answered(rs) && !profile.Missing?
    ensures Seqs.Sum(OptionCounts(rs, profile, Options(rs))) ==
      |Seqs.Filter(rs, (r: Response) => r.0 == profile)|
  {
    var options := Options(rs);
    var mine := Seqs.Filter(rs, (r: Response) => r.0 == profile);
    OptionsAxis(rs);
    KeysDistinct(profile, options);
    forall x | x in mine
      ensures x in Keys(profile, options)
    {
      Seqs.FilterMembership(rs, (r: Response) => r.0 == profile, x);
      ResponseIsKey(rs, profile, x);
    }
    Seqs.CountsOfPartition(mine, Keys(profile, options));
  }

  lemma KeysDistinct(profile: Value, options: seq<string>)
    requires Seqs.NoDuplicates(options)
    ensures Seqs.NoDuplicates(Keys(profile, options))
  {
    var keys := Keys(profile, options);
    forall i, j | 0 <= i < j < |keys|
      ensures keys[i] != keys[j]
    {
      assert options[i] != options[j];
    }
  }

  /** A response of the profile is one of its (profile, option) pairs. */
  lemma ResponseIsKey(rs: seq<Response>, profile: Value, x: Response)
    requires Answered(rs) && x in rs && x.0 == profile
    ensures x in Keys(profile, Options(rs))
  {
    var options := Options(rs);
    OptionsAxis(rs);
    var k :| 0 <= k < |rs| && rs[k] == x;
    assert AnswerTexts(rs)[k] == x.1.s;
    var m :| 0 <= m < |options| && options[m] == x.1.s;
    assert Keys(profile, options)[m] == x;
  }

  /** A bar trace: the option axis, one count per option, the profile and its colour. */
  datatype Trace = Trace(x: seq<string>, y: seq<nat>, name: Value, color: string, showLegend: bool)

  datatype Chart = Chart(question: string, traces: seq<Trace>)

  datatype ChartFailure =
    | UnhashableAnswer  // a list left after exploding, or a list as a profile (line 131)
    | MissingColor      // a profile without a colour: `color_map[profile]` (line 153)

  datatype ChartOutcome = ChartFailed(failure: ChartFailure) | Drawn(chart: Chart)

  /** What the chart for one question is: one trace per profile, in profile order, all on
      the same option axis, the legend on the first question's chart only. */
  function Distribution(t: Table, question: string, questionColumns: seq<string>, profiles: seq<Value>,
                        colorMap: map<Value, string>): ChartOutcome
    requires t.Valid() && ProfileColumn in t.columns && question in t.columns && questionColumns != []
  {
    var rs := Responses(Pairs(t, question));
    if !Hashable(rs) then ChartFailed(UnhashableAnswer)
    else
      match Bars(rs, Options(rs), profiles, colorMap, question == questionColumns[0])
      case None => ChartFailed(MissingColor)
      case Some(bars) => Drawn(Chart(question, bars))
  }

  /** The traces of one chart: there are traces exactly when every profile has a colour,
      and then trace `k` is profile `k`'s, on the shared option axis. */
  function Bars(rs: seq<Response>, options: seq<string>, profiles: seq<Value>, colorMap: map<Value, string>,
                legend: bool): Option<seq<Trace>>
  {
    if forall k :: 0 <= k < |profiles| ==> profiles[k] in colorMap then
      Some(seq(|profiles|, k requires 0 <= k < |profiles| && profiles[k] in colorMap =>
        Trace(options, OptionCounts(rs, profiles[k], options), profiles[k], colorMap[profiles[k]], legend)))
    else None
  }

  /** `create_percentage_distribution_plot`: the responses and the option axis (lines
      120-138), then the traces. */
  method CreatePercentageDistributionPlot(t: Table, question: string, questionColumns: seq<string>,
                                          profiles: seq<Value>, colorMap: map<Value, string>)
    returns (outcome: ChartOutcome)
    requires t.Valid() && ProfileColumn in t.columns && question in t.columns && questionColumns != []
    ensures outcome == Distribution(t, question, questionColumns, profiles, colorMap)
  {
    var rs := Responses(Pairs(t, question));
    if !Hashable(rs) {
      return ChartFailed(UnhashableAnswer);
    }
    var bars := AppendBars(rs, Options(rs), profiles, colorMap, question == questionColumns[0]);
    if bars.None? {
      return ChartFailed(MissingColor);
    }
    outcome := Drawn(Chart(question, bars.value));
  }

  /** Lines 141-156: the traces appended profile by profile; the first profile without a
      colour stops the chart. */
  method AppendBars(rs: seq<Response>, options: seq<string>, profiles: seq<Value>, colorMap: map<Value, string>,
                    legend: bool)
    returns (bars: Option<seq<Trace>>)
    ensures bars == Bars(rs, options, profiles, colorMap, legend)
  {
    var traces: seq<Trace> := [];
    for k := 0 to |profiles|
      invariant forall i :: 0 <= i < k ==> profiles[i] in colorMap
      invariant |traces| == k
      invariant forall i :: 0 <= i < k ==>
        traces[i] == Trace(options, OptionCounts(rs, profiles[i], options), profiles[i], colorMap[profiles[i]], legend)
    {
      var profile := profiles[k];
      if profile !in colorMap {
        assert !(forall i :: 0 <= i < |profiles| ==> profiles[i] in colorMap) by {
          assert profiles[k] !in colorMap;
        }
        return None;
      }
      var values := OptionCounts(rs, profile, options);
      traces := traces + [Trace(options, values, profile, colorMap[profile], legend)];
    }
    ghost var spec := Bars(rs, options, profiles, colorMap, legend);
    assert spec.Some? && |spec.value| == |traces|;
    assert forall i :: 0 <= i < |traces| ==> spec.value[i] == traces[i];
    assert spec.value == traces;
    bars := Some(traces);
  }

  /** With the script's own colour map: a chart fails only on an unhashable answer or on an
      eleventh profile, and otherwise profile `k` is drawn in the `k`-th colour, on the
      shared axis, with its counts. */
  lemma DistributionWithPalette(t: Table, question: string, questionColumns: seq<string>, profiles: seq<Value>)
    requires t.Valid() && ProfileColumn in t.columns && question in t.columns && questionColumns != []
    requires Seqs.NoDuplicates(profiles)
    ensures var rs := Responses(Pairs(t, question));
      var outcome := Distribution(t, question, questionColumns, profiles, ColorMap(profiles));
      && (!Hashable(rs) ==> outcome == ChartFailed(UnhashableAnswer))
      && (Hashable(rs) ==> (outcome.Drawn? <==> |profiles| <= |Palette|))
      && (outcome.Drawn? ==>
            |outcome.chart.traces| == |profiles| &&
            forall k :: 0 <= k < |profiles| ==>
              outcome.chart.traces[k] == Trace(Options(rs), OptionCounts(rs, profiles[k], Options(rs)),
                                               profiles[k], Palette[k], question == questionColumns[0]))
  {
    var rs := Responses(Pairs(t, question));
    if Hashable(rs) {
      var options, colorMap, legend := Options(rs), ColorMap(profiles), question == questionColumns[0];
      var bars := Bars(rs, options, profiles, colorMap, legend);
      assert Distribution(t, question, questionColumns, profiles, colorMap) ==
        if bars.None? then ChartFailed(MissingColor) else Drawn(Chart(question, bars.value));
      if |profiles| > |Palette| {
        ColorMapAssigns(profiles, |Palette|);
        assert bars.None?;
      } else {
        forall k | 0 <= k < |profiles|
          ensures profiles[k] in colorMap && colorMap[profiles[k]] == Palette[k]
        {
          ColorMapAssigns(profiles, k);
        }
        assert bars.Some?;
        forall k | 0 <= k < |profiles|
          ensures bars.value[k] == Trace(options, OptionCounts(rs, profiles[k], options), profiles[k], Palette[k], legend)
        {
        }
      }
    }
  }

  // ---------------------------------------------------------------------------------
  // The exported report (lines 60-114)
  // ---------------------------------------------------------------------------------

  /** Every profile with its number of rows, in order of first appearance. */
  function FirstSeenTally(values: seq<Value>): seq<(Value, nat)> {
    var keys := Seqs.Distinct(Seqs.Filter(values, (v: Value) => !v.Missing?));
    seq(|keys|, k requires 0 <= k < |keys| => (keys[k], Seqs.Count(values, keys[k])))
  }

  /** Line 67, `value_counts()`: every profile with its number of rows, most frequent
      first. */
  function ProfileTally(values: seq<Value>): seq<(Value, nat)> {
    Seqs.SortByCountDescending(FirstSeenTally(values))
  }

  /** The most frequent profile comes first: the counts never increase down the tally. */
  lemma ProfileTallyDescending(values: seq<Value>)
    ensures var tally := ProfileTally(values);
      forall i, j :: 0 <= i < j < |tally| ==> tally[i].1 >= tally[j].1
  {
  }

  lemma FirstSeenTallyEntry(values: seq<Value>, k: nat)
    requires k < |FirstSeenTally(values)|
    ensures var e := FirstSeenTally(values)[k];
      !e.0.Missing? && e.1 == Seqs.Count(values, e.0) && e.1 > 0
  {
    var keys := Seqs.Distinct(Seqs.Filter(values, (v: Value) => !v.Missing?));
    assert FirstSeenTally(values)[k] == (keys[k], Seqs.Count(values, keys[k]));
    Seqs.FilterMembership(values, (v: Value) => !v.Missing?, keys[k]);
    Seqs.CountZero(values, keys[k]);
  }

  lemma FirstSeenTallyDistinct(values: seq<Value>)
    ensures var first := FirstSeenTally(values);
      forall i, j :: 0 <= i < j < |first| ==> first[i].0 != first[j].0
  {
    var keys := Seqs.Distinct(Seqs.Filter(values, (v: Value) => !v.Missing?));
    var first := FirstSeenTally(values);
    assert forall k :: 0 <= k < |first| ==> first[k].0 == keys[k];
  }

  /** One entry of the tally: a profile, with the number of rows carrying it, at least one. */
  lemma ProfileTallyEntry(values: seq<Value>, k: nat)
    requires k < |ProfileTally(values)|
    ensures var e := ProfileTally(values)[k];
      !e.0.Missing? && e.1 == Seqs.Count(values, e.0) && e.1 > 0
  {
    var first, tally := FirstSeenTally(values), ProfileTally(values);
    assert tally[k] in multiset(first) by {
      assert tally[k] in multiset(tally);
    }
    var m :| 0 <= m < |first| && first[m] == tally[k];
    FirstSeenTallyEntry(values, m);
  }

  /** No profile is listed twice. */
  lemma ProfileTallyDistinct(values: seq<Value>)
    ensures var tally := ProfileTally(values);
      forall i, j :: 0 <= i < j < |tally| ==> tally[i].0 != tally[j].0
  {
    var first, tally := FirstSeenTally(values), ProfileTally(values);
    FirstSeenTallyDistinct(values);
    assert Seqs.NoDuplicates(first);
    Seqs.NoDuplicatesOfPermutation(tally, first);
    forall i, j | 0 <= i < j < |tally|
      ensures tally[i].0 != tally[j].0
    {
      assert tally[i] in multiset(first) by {
        assert tally[i] in multiset(tally);
      }
      assert tally[j] in multiset(first) by {
        assert tally[j] in multiset(tally);
      }
      var m :| 0 <= m < |first| && first[m] == tally[i];
      var n :| 0 <= n < |first| && first[n] == tally[j];
      assert m != n;
    }
  }

  /** Each entry is a profile (never the missing value), listed once, with the number of
      rows carrying it, which is at least one. */
  lemma ProfileTallyEntries(values: seq<Value>)
    ensures var tally := ProfileTally(values);
      && (forall i, j :: 0 <= i < j < |tally| ==> tally[i].0 != tally[j].0)
      && forall k :: 0 <= k < |tally| ==>
           !tally[k].0.Missing? && tally[k].1 == Seqs.Count(values, tally[k].0) && tally[k].1 > 0
  {
    var tally := ProfileTally(values);
    ProfileTallyDistinct(values);
    forall k | 0 <= k < |tally|
      ensures !tally[k].0.Missing? && tally[k].1 == Seqs.Count(values, tally[k].0) && tally[k].1 > 0
    {
      ProfileTallyEntry(values, k);
    }
  }

  /** Every visitor with a profile is counted once: the tally adds up to the number of rows
      with a profile. */
  lemma ProfileTallySum(values: seq<Value>)
    ensures Seqs.Sum(Seqs.Map(ProfileTally(values), (e: (Value, nat)) => e.1)) ==
      |Seqs.Filter(values, (v: Value) => !v.Missing?)|
  {
    var present := Seqs.Filter(values, (v: Value) => !v.Missing?);
    var keys := Seqs.Map(ProfileTally(values), (e: (Value, nat)) => e.0);
    ProfileTallyCountsPresent(values);
    forall x | x in present
      ensures x in keys
    {
      ProfileTallyCovers(values, x);
    }
    ProfileTallyDistinct(values);
    assert Seqs.NoDuplicates(keys);
    Seqs.CountsOfPartition(present, keys);
  }

  /** The tally's counts are the counts, among the rows with a profile, of its profiles. */
  lemma ProfileTallyCountsPresent(values: seq<Value>)
    ensures var present := Seqs.Filter(values, (v: Value) => !v.Missing?);
      var tally := ProfileTally(values);
      Seqs.Map(tally, (e: (Value, nat)) => e.1) == Seqs.CountsOf(present, Seqs.Map(tally, (e: (Value, nat)) => e.0))
  {
    var present := Seqs.Filter(values, (v: Value) => !v.Missing?);
    var tally := ProfileTally(values);
    forall k | 0 <= k < |tally|
      ensures tally[k].1 == Seqs.Count(present, tally[k].0)
    {
      ProfileTallyEntry(values, k);
      Seqs.CountFilter(values, (v: Value) => !v.Missing?, tally[k].0);
    }
  }

  /** Every row with a profile has its profile in the tally. */
  lemma ProfileTallyCovers(values: seq<Value>, x: Value)
    requires x in Seqs.Filter(values, (v: Value) => !v.Missing?)
    ensures x in Seqs.Map(ProfileTally(values), (e: (Value, nat)) => e.0)
  {
    var tally := ProfileTally(values);
    assert x in values && !x.Missing? by {
      Seqs.FilterMembership(values, (v: Value) => !v.Missing?, x);
    }
    assert exists k :: 0 <= k < |tally| && tally[k].0 == x by {
      ProfileTallyPresent(values, x);
    }
    var k :| 0 <= k < |tally| && tally[k].0 == x;
    var keys := Seqs.Map(tally, (e: (Value, nat)) => e.0);
    assert keys[k] == tally[k].0;
  }

  lemma FirstSeenTallyPresent(values: seq<Value>, v: Value)
    requires !v.Missing?
    ensures v in values <==> exists k :: 0 <= k < |FirstSeenTally(values)| && FirstSeenTally(values)[k].0 == v
  {
    var keys := Seqs.Distinct(Seqs.Filter(values, (v: Value) => !v.Missing?));
    var first := FirstSeenTally(values);
    Seqs.FilterMembership(values, (v: Value) => !v.Missing?, v);
    if v in keys {
      var m :| 0 <= m < |keys| && keys[m] == v;
      assert first[m].0 == v;
    }
  }

  /** A profile is listed exactly when some row carries it. */
  lemma ProfileTallyPresent(values: seq<Value>, v: Value)
    requires !v.Missing?
    ensures v in values <==> exists k :: 0 <= k < |ProfileTally(values)| && ProfileTally(values)[k].0 == v
  {
    FirstSeenTallyPresent(values, v);
    Seqs.KeyOfPermutation(ProfileTally(values), FirstSeenTally(values), v);
  }

  /** The overview block and the charts of the report, in question order. */
  datatype Report = Report(totalVisitors: nat, profileCounts: seq<(Value, nat)>, charts: seq<Chart>)

  /** The outcome of the chart for every question, in question order. */
  function Outcomes(t: Table, questionColumns: seq<string>, profiles: seq<Value>, colorMap: map<Value, string>)
    : (outcomes: seq<ChartOutcome>)
    requires t.Valid() && ProfileColumn in t.columns
    requires forall k :: 0 <= k < |questionColumns| ==> questionColumns[k] in t.columns
    ensures |outcomes| == |questionColumns|
    ensures forall k :: 0 <= k < |questionColumns| ==>
      outcomes[k] == Distribution(t, questionColumns[k], questionColumns, profiles, colorMap)
  {
    seq(|questionColumns|, k requires 0 <= k < |questionColumns| =>
      Distribution(t, questionColumns[k], questionColumns, profiles, colorMap))
  }

  /** Charts collected in order until the first failure, which stops the collection. */
  function Collect(outcomes: seq<ChartOutcome>): (Option<ChartFailure>, seq<Chart>) {
    if outcomes == [] then (None, [])
    else
      var (failure, charts) := Collect(outcomes[..|outcomes| - 1]);
      if failure.Some? then (failure, charts)
      else
        match outcomes[|outcomes| - 1]
        case ChartFailed(f) => (Some(f), charts)
        case Drawn(chart) => (None, charts + [chart])
  }

  /** The collection succeeds exactly when every chart is drawn, and then holds every
      chart in order; otherwise it reports the failure of the first chart that failed. */
  lemma {:induction false} CollectExactly(outcomes: seq<ChartOutcome>)
    ensures var (failure, charts) := Collect(outcomes);
      && (failure.None? <==> forall k :: 0 <= k < |outcomes| ==> outcomes[k].Drawn?)
      && (failure.Some? ==> exists k :: 0 <= k < |outcomes| && outcomes[k] == ChartFailed(failure.value) &&
                                        forall j :: 0 <= j < k ==> outcomes[j].Drawn?)
      && (failure.None? ==> |charts| == |outcomes| && forall k :: 0 <= k < |outcomes| ==> charts[k] == outcomes[k].chart)
  {
    if outcomes != [] {
      var init := outcomes[..|outcomes| - 1];
      CollectExactly(init);
      assert forall k :: 0 <= k < |init| ==> init[k] == outcomes[k];
      var (failure, charts) := Collect(init);
      if failure.Some? {
        var k :| 0 <= k < |init| && init[k] == ChartFailed(failure.value) && forall j :: 0 <= j < k ==> init[j].Drawn?;
        assert outcomes[k] == ChartFailed(failure.value);
      }
    }
  }

  /** Once the collection has failed, later charts change nothing. */
  lemma {:induction false} CollectStops(outcomes: seq<ChartOutcome>, n: nat)
    requires n <= |outcomes| && Collect(outcomes[..n]).0.Some?
    ensures Collect(outcomes) == Collect(outcomes[..n])
    decreases |outcomes| - n
  {
    if n < |outcomes| {
      Seqs.TakeSnoc(outcomes, n);
      assert outcomes[..n + 1][..n] == outcomes[..n];
      CollectStops(outcomes, n + 1);
    } else {
      Seqs.TakeAll(outcomes);
    }
  }

  /** `export_all_plots_combined_html`: the overview counts (lines 66-67), then the charts. */
  method ExportAllPlotsCombinedHtml(t: Table, questionColumns: seq<string>, profiles: seq<Value>,
                                    colorMap: map<Value, string>)
    returns (failure: Option<ChartFailure>, report: Report)
    requires t.Valid() && ProfileColumn in t.columns
    requires forall k :: 0 <= k < |questionColumns| ==> questionColumns[k] in t.columns
    ensures report.totalVisitors == |t.rows|
    ensures report.profileCounts == ProfileTally(ProfileValues(t))
    ensures (failure, report.charts) == Collect(Outcomes(t, questionColumns, profiles, colorMap))
  {
    var totalVisitors := |t.rows|;
    var profileCounts := ProfileTally(ProfileValues(t));
    var charts;
    failure, charts := ExportCharts(t, questionColumns, profiles, colorMap);
    report := Report(totalVisitors, profileCounts, charts);
  }

  /** Lines 80-84: one chart per question, appended in order; the first chart that fails
      stops the export. */
  method ExportCharts(t: Table, questionColumns: seq<string>, profiles: seq<Value>, colorMap: map<Value, string>)
    returns (failure: Option<ChartFailure>, charts: seq<Chart>)
    requires t.Valid() && ProfileColumn in t.columns
    requires forall k :: 0 <= k < |questionColumns| ==> questionColumns[k] in t.columns
    ensures (failure, charts) == Collect(Outcomes(t, questionColumns, profiles, colorMap))
  {
    ghost var outcomes := Outcomes(t, questionColumns, profiles, colorMap);
    charts := [];
    for k := 0 to |questionColumns|
      invariant Collect(outcomes[..k]) == (None, charts)
    {
      var outcome := CreatePercentageDistributionPlot(t, questionColumns[k], questionColumns, profiles, colorMap);
      assert outcome == outcomes[k];
      Seqs.TakeSnoc(outcomes, k);
      assert outcomes[..k + 1][..k] == outcomes[..k];
      if outcome.ChartFailed? {
        CollectStops(outcomes, k + 1);
        return Some(outcome.failure), charts;
      }
      charts := charts + [outcome.chart];
    }
    Seqs.TakeAll(outcomes);
    failure := None;
  }
}
