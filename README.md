# Virtual panorama surveys: file selection, survey reshaping and report counts

This project models, in Dafny, the deterministic logic behind the survey scripts of the
virtual panorama surveys repository. Visitors of a memorial site leave one JSON log each.
The scripts read these logs and turn them into one table row per visitor, labelled with
the id in the log's file name. They rename the columns and the nationalities through
mapping dictionaries and drop test submissions. The report scripts then count answers
per visitor profile.

Modules:

- `Utils` (`utils.dfy`) models the file helpers of `utils.py`:
  - file matching against a listing;
  - reading the respondent id out of a file name;
  - pairing files with ids;
  - choosing which rows are flagged as tests and which files get deleted;
  - the per-column unique-values report;
  - the tab assembly of `combine_html`.
- `SurveyProcessing` (`survey_processing.dfy`) models the script `survey_processing.py`:
  - the answer pivot with positional id and question labels;
  - the CSV frame;
  - the dictionary renaming of columns and nationalities;
  - the `Testing` row filter.

  Six of the errors the script can stop with are `Failure` values: an empty log, an id
  count that differs from the log count, fewer than 101 logs, a reference log with fewer
  questions than the longest log has answers, and no column or several columns named
  `nationality` after renaming. The other errors are listed under "Left out".
- `Demographics` (`demographics.dfy`) models `survey_profile_demographics.py`:
  - the list-cell coercion `safely_parse_list_string`;
  - label truncation;
  - which rows, columns and categories a persona's figure shows;
  - the `TypeError` that `nunique()` raises on a column whose entries include a list, and
    which stops the persona loop;
  - the file each persona's figure is saved to.
- `ProfilesVis` (`profiles_vis.dfy`) models `survey_profiles_vis.py`:
  - the working table and its question and profile lists;
  - the profile colours;
  - the per-(profile, option) counts of each chart on a shared, sorted option axis;
  - the overview counts of the exported report.
- `Tables`, `Seqs`, `Strings` and `Wrappers` hold the shared pieces: the table cell, sequence and string helpers with their lemmas, and `Option`.

Inputs stand in for everything the scripts get from outside:
- directory listings, file contents and loaded logs;
- the glob pattern, as a predicate;
- the mapping dictionaries;
- the parsers `ast.literal_eval` and `str_to_list`, as functions;
- the `<body>` search of `combine_html`, as a function.

Deletions and figures come back as lists of paths and values, and nothing is written.

Notes on the code's behaviour:
- `.map(dict)` turns an unmapped column label or nationality into a missing value. It does not pass it through.
- The `Testing` test looks at the nationality after mapping. A row answered `Testing` is dropped only if the country map sends `Testing` to `Testing`.
- The scripts have no whole-row de-duplication and no persona classifier. `visitor_profile` and `str_to_list` are imported but defined nowhere in these files.
- Column labels come from the log at position 100. A run with fewer than 101 logs stops with an error (`TooFewRecords`) and produces no table.
- `extract_id_files` keeps the `None` entries for names without an id, although its comment speaks of filtering them out.

## Model

| member | source | states |
|---|---|---|
| Utils.JoinPath | utils.py:34 | `os.path.join`: an absolute name, or an empty directory, gives the name alone; a directory ending in `/` is followed directly by the name; any other directory gets one `/` before the name. In every case the path ends with the name, right after a `/` unless it is the name itself |
| Utils.MatchFiles | utils.py:31-38 | the matched paths are the listed names the pattern accepts, in listing order, each joined with the directory |
| Utils.MatchFilesMembership | utils.py:33-37 | a path is matched iff it is the directory joined with a listed name that the pattern accepts |
| Utils.StemIdShape | utils.py:63 | an id read off the end of a stem is a non-empty digit string, preceded by `_` |
| Utils.ExtractId | utils.py:61-64 | any id found is a non-empty digit string, and the name is some prefix, `_`, that id and `.json` |
| Utils.ExtractIdRoundTrip | utils.py:63-64 | the id written into `p_d.json` is read back as `d`, whatever the prefix holds (other `_<digits>` groups included) |
| Utils.ExtractIdCharacterization | utils.py:63-64 | `extract_id` yields `d` iff `d` is a non-empty digit string and the name is some prefix, `_`, `d`, `.json` |
| Utils.ExtractIdRejects | utils.py:63-64 | `X_.json`, `X_5.JSON`, `X_5a.json` and `5.json` yield no id |
| Utils.ExtractIdIgnoresDirectory | utils.py:80-83 | joining a directory in front of a name never changes the id read from it |
| Utils.ExtractIdFiles | utils.py:67-85 | one entry per matched file, in the same order, the id of that file's name, with `None` entries kept in place |
| Utils.MatchingIds | utils.py:144 | the matching ids are the labels (as strings) of the flagged rows, in row order |
| Utils.MatchingIdsExactly | utils.py:137-144 | an id is matching iff it is the label of a row with a flagged cell: equal to `Test` with `exact_match`, otherwise containing `test` in any ASCII case |
| Utils.FilesToRemove | utils.py:147-158 | the loop with its early `break` removes exactly the `.json` entries that contain some matching id, each once, in listing order |
| Utils.RemovedPathsExactly | utils.py:147-158 | removed path `k` is the directory joined with the `k`-th selected entry, and there are as many paths as selected entries |
| Utils.RemovalOverMatches | utils.py:150-151 | flagging id `5` also selects `Log_Survey_15.json`, whose own id is `15` |
| Utils.RemovedByIdCarriesId | utils.py:147-158 | corrected selection: every path removed by id carries one of the matching ids as its own id |
| Utils.RemovalByIdWithinSubstring | utils.py:147-158 | corrected selection: it never removes a path that the substring rule would keep |
| Utils.SelectedByIdIsSelected | utils.py:150-151 | a `.json` name whose own id is a matching id contains that id, so the substring rule selects it too |
| Utils.DropMissing | utils.py:169 | `dropna()`: the present cells, in order |
| Utils.UniqueValues | utils.py:169 | `dropna().unique()`: no duplicates, a value is listed iff it is present in the column, and the order is the order of first appearance |
| Utils.PreIdsDistinct | utils.py:203-208 | different table rows get different `pre_i` element ids, so each copy button copies its own row |
| Utils.ReportRows | utils.py:201-210 | row `i` of the report is the row for column `i`: its name, its unique values and id `pre_i` |
| Utils.ColumnwiseUniqueReport | utils.py:165-216 | the page is the header, then one row per column in column order, then the footer |
| Utils.TabIdsDistinct | utils.py:291 | different tabs get different ids `tab0`, `tab1`, ... |
| Utils.TabBodyWithin | utils.py:287-289 | a tab holds a contiguous piece of the page's `<body>`, or of the whole page when there is none; everything of it before and after that piece is white space, and the piece neither starts nor ends with a character `str.isspace()` accepts (ASCII and Unicode white space alike) |
| Strings.StripLeft | utils.py:288-289 | the left half of `strip()`: a suffix of the input, not starting with white space, and everything dropped is white space |
| Strings.StripRight | utils.py:288-289 | the right half of `strip()`: a prefix of the input, not ending with white space, and everything dropped is white space |
| Strings.StripWithin | utils.py:288-289 | what `strip()` keeps is a contiguous piece of its input, and everything before and after that piece is white space |
| Utils.PaneClass | utils.py:341 | a pane is `active` iff it is the first one |
| Utils.CombineHtml | utils.py:279-293 | one `(tab name, tab i)` pair and one `(tab i, body i)` pair per input page, in input order, and the tab bar and panes built from them |
| Utils.TabButtons | utils.py:339 | one button per tab, in order, each calling `showTab` with its own id |
| Utils.TabPanes | utils.py:341 | one content pane per tab, in order, with the tab's id and body |
| SurveyProcessing.Width | survey_processing.py:18 | no log is longer than the answer frame has rows |
| SurveyProcessing.WidthAttained | survey_processing.py:18 | with at least one log, some log is exactly as long as the answer frame has rows |
| SurveyProcessing.Questions | survey_processing.py:20 | the row labels are the question texts of the reference log, in order |
| SurveyProcessing.MapAll | survey_processing.py:33 | `.map(dict)` applied to each label: a mapped key gets its value, anything else becomes missing |
| SurveyProcessing.UnmappedLabelBecomesMissing | survey_processing.py:33 | a column label absent from the question map becomes missing; it does not keep its text |
| SurveyProcessing.Transpose | survey_processing.py:26 | `.T`: labels swap places and cell `(r, c)` becomes cell `(c, r)` |
| SurveyProcessing.TransposeInvolution | survey_processing.py:23-26 | transposing twice gives back the frame |
| SurveyProcessing.Reshape | survey_processing.py:17-26 | fails, in this order of checks, with `EmptyRecord` when some log is empty, `IdCountMismatch` when the id count differs from the log count, `TooFewRecords` with at most 100 logs, and `QuestionCountMismatch` when log 100 is not as long as the longest log. It succeeds iff none of these holds, and then row `k` is log `k` under the `k`-th id, the columns carry the questions of log 100, and cell `(k, j)` is log `k`'s `j`-th answer, missing past its end |
| SurveyProcessing.SetColumn | survey_processing.py:35 | overwriting a column changes that column and no other cell |
| SurveyProcessing.SelectRows | survey_processing.py:36 | a boolean mask keeps the selected rows with their labels, in order, and all columns |
| SurveyProcessing.MappedNationalities | survey_processing.py:35 | the nationality of every log, passed through the country map |
| SurveyProcessing.RenameAndFilter | survey_processing.py:33-36 | fails iff no column, or more than one, is named `nationality` after renaming. On success, the rows kept are exactly those whose mapped nationality is not `Testing`, in order, with their labels; the nationality cell is mapped and every other cell is unchanged |
| SurveyProcessing.ProcessSurvey | survey_processing.py:14-36 | fails with the four reshaping failures under the same conditions as `Reshape`. Past them, it fails with `NationalityMissing` iff no renamed column is `nationality`, with `NationalityAmbiguous` iff several are, and succeeds iff exactly one is. On success the CSV is the transposed answer frame before any renaming, and the final table holds, in order, the logs whose mapped nationality is not `Testing`, each under its id, with its answers and its nationality mapped |
| SurveyProcessing.KeptLogsExactly | survey_processing.py:36 | a log is kept iff its mapped nationality is not `Testing` |
| SurveyProcessing.TestingFilterFollowsMapping | survey_processing.py:35-36 | a log answered `Testing` is dropped iff the country map sends `Testing` to `Testing`, and logs with a missing or unmapped nationality are kept |
| Tables.Explode | survey_profiles_vis.py:125 | `explode` on one cell: a non-empty list gives its items in order, an empty list gives one missing value, and any other cell gives itself; never nothing |
| Tables.ExplodeScalar | survey_profiles_vis.py:124-125 | a cell without a list explodes to itself alone |
| Demographics.SafelyParseListString | survey_profile_demographics.py:61-72 | a list is returned unchanged and a missing value gives `[]`. A bracketed text gives what the literal parser makes of it, or `[]` when parsing fails. Any other text `v` gives `[v]` |
| Demographics.SafelyParseListStringStable | survey_profile_demographics.py:67-68 | parsing an already parsed cell again changes nothing |
| Demographics.Truncate | survey_profile_demographics.py:110-113 | a label within the limit is unchanged. A longer one keeps its first `limit` characters and gets `…`, so the result is at most `limit + 1` long |
| Demographics.TruncateIdempotent | survey_profile_demographics.py:220-227 | truncating a truncated label gives it back |
| Demographics.ColumnEntries | survey_profile_demographics.py:178-180 | after exploding, no entry left is empty text, an empty list or missing |
| Demographics.ColumnEntriesMembership | survey_profile_demographics.py:178-180 | a value is an entry of the column iff it is not blank and exploding some row's parsed cell yields it |
| Demographics.ColumnEntriesAppend | survey_profile_demographics.py:178-180 | the entries of two blocks of rows are the first block's entries followed by the second's, so entries keep row order |
| Demographics.Tally | survey_profile_demographics.py:186-187 | `value_counts`: every distinct entry once, with its number of occurrences |
| Demographics.CategoriesSize | survey_profile_demographics.py:186-189 | a panel shows `max_categories` categories, or all of them when there are fewer |
| Demographics.CategoriesCounted | survey_profile_demographics.py:186-191 | every category shown is an entry with its exact count (at least 1), none is shown twice, and the counts ascend |
| Demographics.CategoriesLeastFrequent | survey_profile_demographics.py:186-191 | an entry left out occurs at least as often as every category shown, so the rarest are kept |
| Demographics.Title | survey_profile_demographics.py:192 | `replace('_', ' ').capitalize()`: the title has the column's length; its first character is the upper case of the first character (a space for `_`); every later `_` is a space and every later character is in lower case |
| Demographics.Labels | survey_profile_demographics.py:220-227 | one label per category, in order: a text category gives its truncated text, any other its truncated `repr`; each label is at most `label_limit + 1` characters |
| Demographics.RowsWithExactly | survey_profile_demographics.py:171 | the subset is exactly the rows whose persona cell is the persona, in table order |
| Demographics.PanelsForExactly | survey_profile_demographics.py:177-193 | exactly the columns with entries, none of them a list, and at most 50 distinct ones, get a panel, in column order |
| Demographics.DemographicColumnsExactly | survey_profile_demographics.py:172 | the columns plotted for a persona are the table's columns other than the persona column, in table order |
| Demographics.PlotRaisesExactly | survey_profile_demographics.py:177-183 | a persona's plot raises iff the entries of some column other than the persona column, over the persona's rows, are non-empty and include a list; the column named is the first such column |
| Demographics.PlotDemographics | survey_profile_demographics.py:171-193 | the loop raises, naming the first column whose entries include a list, iff the persona's plot raises; otherwise it builds the panels of every column except the persona column, over the persona's rows |
| Demographics.FileName | survey_profile_demographics.py:267 | the file name is the profile with every space turned into `_`, followed by `_demographics.png` |
| Demographics.FileNameInjective | survey_profile_demographics.py:267 | profiles without underscores get different file names |
| Demographics.SavedFiguresExactly | survey_profile_demographics.py:264-269 | the figures a run over these profiles saves when none of their plots raises: one figure per profile with something to draw, in order, saved under the output directory in the profile's colour, or in `#3366FF` when the colour map lacks it |
| Demographics.SaveOutcomeFinishes | survey_profile_demographics.py:264-269 | the loop runs to the end iff no profile's plot raises, and then it has saved the figures of all profiles |
| Demographics.SaveOutcomeStops | survey_profile_demographics.py:264-269 | otherwise it stops at the first profile whose plot raises, with that profile and its raising column, having saved the figures of the profiles before it |
| Demographics.PlotAllProfiles | survey_profile_demographics.py:264-269 | the loop saves those figures and stops where the outcome above says |
| ProfilesVis.SelectColumns | survey_profiles_vis.py:14-30 | `data[columns]` fails iff a name is missing. Otherwise the table has the named columns, in that order, with the same rows |
| ProfilesVis.ConvertListColumns | survey_profiles_vis.py:36-44 | fails iff a listed column is missing. Otherwise each cell has been through `str_to_list` once per listing of its column, and the table's shape is unchanged |
| ProfilesVis.ApplyToColumn | survey_profiles_vis.py:44 | `apply` on one column changes that column's cells and no other cell |
| ProfilesVis.QuestionColumnsExactly | survey_profiles_vis.py:33 | a column is a question iff it is a column other than `profile` |
| ProfilesVis.SelectedQuestions | survey_profiles_vis.py:14-33 | the selected columns give twelve questions, starting with `nationality`, with no `profile` among them |
| ProfilesVis.ProfileValues | survey_profiles_vis.py:34 | the profile column, top to bottom |
| ProfilesVis.Profiles | survey_profiles_vis.py:34 | `unique()` fails iff some profile cell is a list. Otherwise each profile value is listed once, in order of first appearance |
| ProfilesVis.ZipMapDomain | survey_profiles_vis.py:57 | a key is in the zipped dictionary iff it pairs with some value |
| ProfilesVis.ZipMapLookup | survey_profiles_vis.py:57 | with distinct keys, key `k` maps to value `k` |
| ProfilesVis.ColorMapAssigns | survey_profiles_vis.py:57 | profile `k` has a colour iff `k < 10`, and that colour is the `k`-th of the palette |
| ProfilesVis.Pairs | survey_profiles_vis.py:120 | the profile and the answer of every visitor, in row order |
| ProfilesVis.ExplodeRowsLength | survey_profiles_vis.py:125 | exploding never loses a row |
| ProfilesVis.WithProfileMembership | survey_profiles_vis.py:125 | the rows exploded from one row are exactly its profile paired with each entry of its exploded answer |
| ProfilesVis.ExplodeRowsMembership | survey_profiles_vis.py:125 | a response is in the exploded table iff it pairs some row's profile with an entry of that row's exploded answer (its items, a missing value for `[]`, or the answer itself) |
| ProfilesVis.ExplodeRowsAppend | survey_profiles_vis.py:125 | exploding two blocks of rows gives the first block's rows followed by the second's, so row order is kept |
| ProfilesVis.ExplodeRowsWithoutLists | survey_profiles_vis.py:124-125 | exploding a column without lists changes nothing, so the test at line 124 only skips work |
| ProfilesVis.Responses | survey_profiles_vis.py:124-128 | no response left has a missing answer |
| ProfilesVis.ResponsesMembership | survey_profiles_vis.py:124-128 | a response is kept iff its answer is present and it pairs some row's profile with an entry of that row's exploded answer |
| ProfilesVis.OptionsAxis | survey_profiles_vis.py:138 | the option axis is sorted, has no duplicates, and lists exactly the answer texts |
| ProfilesVis.OptionsExactly | survey_profiles_vis.py:138 | an option is on the axis iff some response gave it, and the axis strictly ascends |
| ProfilesVis.OptionCounts | survey_profiles_vis.py:144-147 | one value per option |
| ProfilesVis.OptionCountsExact | survey_profiles_vis.py:131-147 | the value for an option is the number of responses with that profile and that option. It is zero for a missing profile, whose rows grouping drops |
| ProfilesVis.OptionCountsZero | survey_profiles_vis.py:144-147 | the value for an option is zero iff the profile never chose it (or the profile is missing) |
| ProfilesVis.OptionCountsSum | survey_profiles_vis.py:131-134 | one profile's values add up to its number of responses |
| ProfilesVis.AppendBars | survey_profiles_vis.py:141-156 | the loop yields traces iff every profile has a colour, and then trace `k` is profile `k`'s, on the shared axis, with its counts, its colour and the legend flag. It yields none at the first profile without a colour |
| ProfilesVis.CreatePercentageDistributionPlot | survey_profiles_vis.py:118-169 | the chart of a question: it fails on an unhashable answer or a profile without a colour, and otherwise is the profile traces above, with the legend only on the first question |
| ProfilesVis.DistributionWithPalette | survey_profiles_vis.py:142-156 | with the script's colour map, a chart with hashable answers is drawn iff there are at most ten profiles, and profile `k` is drawn in the `k`-th palette colour |
| Seqs.SortByCountDescending | survey_profiles_vis.py:67 | `value_counts()` ordering: the same entries, counts never increasing |
| ProfilesVis.ProfileTallyDescending | survey_profiles_vis.py:67 | the most frequent profile comes first, and the counts never increase down the tally |
| ProfilesVis.ProfileTallyEntries | survey_profiles_vis.py:67 | `value_counts()`: each entry is a real profile, listed once, with the number of rows carrying it, at least one |
| ProfilesVis.ProfileTallySum | survey_profiles_vis.py:66-67 | the counts add up to the number of rows with a profile |
| ProfilesVis.ProfileTallyPresent | survey_profiles_vis.py:67 | a profile is listed iff some row carries it |
| ProfilesVis.Outcomes | survey_profiles_vis.py:80-81 | one chart outcome per question, in question order |
| ProfilesVis.CollectExactly | survey_profiles_vis.py:80-84 | the export succeeds iff every chart is drawn, and then holds every chart in order. Otherwise it reports the failure of the first chart that failed |
| ProfilesVis.CollectStops | survey_profiles_vis.py:80-84 | once a chart has failed, later charts change nothing |
| ProfilesVis.ExportCharts | survey_profiles_vis.py:80-84 | the loop collects the charts in question order and stops at the first failure |
| ProfilesVis.ExportAllPlotsCombinedHtml | survey_profiles_vis.py:60-84 | the overview's total is the row count, its per-profile counts are the profile tally (every profile once with its row count, most frequent first), and its charts are the collected charts |

## Left out

- File and process I/O are not modelled. Loading YAML and JSON, `os.listdir`, `os.remove`, `webbrowser`, file creation times, `clean_duplicated_json`, CSV reading and writing, and every file write are left out. Listings, loaded logs and mapping dictionaries are inputs; deletions and pages are outputs.
- Strings.ContainsIgnoreCase: folds ASCII letters only. Python's `case=False` uses full Unicode case folding, so a non-ASCII `test` spelling is not matched by the model.
- Utils.MatchingIdsExactly: inherits the ASCII-only folding of `Strings.ContainsIgnoreCase`.
- Strings.Capitalize: changes the case of ASCII letters only. Python's `str.capitalize()` also maps other letters, and uses title case for the first one.
- Demographics.Title: inherits the ASCII-only capitalisation of `Strings.Capitalize`.
- Tables.Repr: writes text between `'` quotes without escaping. Python switches to `"` for text containing `'` and escapes backslashes and control characters.
- ProfilesVis.ProfileTally: the order among profiles with equal counts is not stated. `value_counts` gives no guarantee for ties; the model uses one fixed order, and the contracts state only descending counts.
- ProfilesVis.Responses: the order of the responses is stated by `ProfilesVis.ExplodeRowsAppend` and the order-keeping filter, not as one clause of its own contract.
- SurveyProcessing.ProcessSurvey: when every item of one log lacks an `answer` key, `json_normalize` builds no `answer` column and line 18 raises `KeyError`. The model treats logs as items with an optional answer, so this case is the ordinary missing answer.
- SurveyProcessing.ProcessSurvey: a reference log whose items lack `question` fails at line 20 in the source. The model reads such a question as a missing label.
- SurveyProcessing.ProcessSurvey: a file that does not parse is loaded as `None` by `load_json` (utils.py:28) and then passed to `json_normalize`. The model takes already loaded logs, so this case is not represented.
- SurveyProcessing.ProcessSurvey: a nationality answer that is a list is handed to `.map` at line 35. The model's cells are text or missing, so list-valued answers are not represented.
- `fnmatch` glob semantics (including OS case folding) are not modelled: the pattern is a predicate.
- Utils.ExtractId: assumes ASCII digits and no trailing newline. Python's `\d` also matches other Unicode digits, and `$` also matches before a final newline.
- Utils.FilesToRemove: a failed `os.remove` is printed and skipped in the source. The model returns the paths the loop tries to remove.
- Utils.CombineHtml: the `<style>` and `<link>` scans and the fixed page template are not modelled. The `<body>` search is a function parameter with the stated fallback.
- Utils.ColumnwiseUniqueReport: requires distinct column names. With a repeated name, `df[col]` is a frame and the source raises an error, which the model does not represent. The CSS and script of the page are reduced to a fixed header.
- `render_mapping_dict_to_html` is markup only and is not modelled.
- `ast.literal_eval` and `str_to_list` are not modelled: they are function parameters. `str_to_list` is not defined in these files.
- Percentages, bar heights, figure sizes and height ratios are floating point and are not modelled. The model keeps the integer counts the percentages are computed from.
- Demographics.CategoriesCounted: the order among equal counts is not stated. `sort_values` gives no guarantee for ties; the model uses one fixed stable order, and the contracts state only ascending counts and least-frequent selection.
- Demographics.ColumnEntries: removes empty text, empty lists and missing values, as the `isin` filter at line 180 is meant to. The model does not capture whether pandas accepts an empty list inside `isin`.
- Demographics.PlotDemographics: requires the persona column to exist. The source raises a `KeyError` without it.
- Figure drawing, the "No valid demographics" message and the `plot_clean_demographics` variant are not modelled; only its `truncate` is.
- The module-level column selection and `str_to_list` pass of `survey_profile_demographics.py` (lines 30-40) have the same shape as `ProfilesVis.SelectColumns` and `ProfilesVis.ConvertListColumns` and are not modelled separately.
- Numbers read from the CSV stay text, so the option axis uses text order. pandas would sort numeric columns by number.
- Matplotlib, Plotly and Dash figure, layout and app construction, the HTML text of the exported report and the Dash app are not modelled.
- `survey_mapping.py`, `survey_analysis.py` and `survey_static_profiles.py` are not part of this model. They are thin wrappers around the undefined `visitor_profile`, a profiling library and a page template.

## Findings

| source | as written | input that shows it | evidently intended | confidence | as-written member | corrected member |
|---|---|---|---|---|---|---|
| utils.py:147-158 | a `.json` entry is deleted when a flagged id occurs anywhere in its name, as a substring | flagged id `5` with directory entry `Log_Survey_15.json` (respondent 15) | delete only the files of the flagged respondents, i.e. entries whose own id is a flagged id, as `Utils.FilesToRemoveById` selects them | not executed | Utils.RemovalOverMatches | Utils.RemovedByIdCarriesId |
