/** The survey table as the report scripts read it back from the CSV file: named columns,
    one row per visitor, and cells that are text, missing, or lists made by the
    list-parsing helpers. */
module Tables {
  import Strings
  import Seqs

  /** One cell. Text read from the CSV (numbers included) is kept as its text. */
  datatype Value = Missing | Str(s: string) | List(items: seq<Value>)

  /** A frame with column names; the CSV reader makes the names distinct. */
  datatype Table = Table(columns: seq<string>, rows: seq<seq<Value>>) {
    predicate Valid() {
      && Seqs.NoDuplicates(columns)
      && forall r :: 0 <= r < |rows| ==> |rows[r]| == |columns|
    }
  }

  /** The position of a named column. */
  function ColumnIndex(t: Table, name: string): (j: nat)
    requires name in t.columns
    ensures j < |t.columns| && t.columns[j] == name
  {
    Seqs.FirstIndex(t.columns, name)
  }

  /** `Series.explode` on one cell: a list gives its elements, an empty list gives one
      missing value, anything else stays as it is. */
  function Explode(v: Value): (r: seq<Value>)
    ensures |r| >= 1
    ensures v.List? && v.items != [] ==> r == v.items
    ensures v == List([]) ==> r == [Missing]
    ensures !v.List? ==> r == [v]
  {
    match v
    case List(items) => if items == [] then [Missing] else items
    case _ => [v]
  }

  /** A cell with no list in it explodes to itself. */
  lemma ExplodeScalar(v: Value)
    requires !v.List?
    ensures Explode(v) == [v]
  {
  }

  /** The text `str(v)` gives for a cell: the text itself for text, otherwise its `repr`. */
  function Text(v: Value): string {
    if v.Str? then v.s else Repr(v)
  }

  /** Python's `repr`: quoted text (no escaping), `nan`, or the bracketed,
      comma-separated reprs of a list's elements. */
  function Repr(v: Value): (r: string)
    ensures |r| >= 2 || v.Missing?
    decreases v, 1
  {
    match v
    case Missing => "nan"
    case Str(s) => "'" + s + "'"
    case List(items) => "[" + Strings.Join(", ", Reprs(v, items)) + "]"
  }

  function Reprs(v: Value, items: seq<Value>): (r: seq<string>)
    requires v.List? && items == v.items
    ensures |r| == |items|
    decreases v, 0
  {
    seq(|items|, i requires 0 <= i < |items| => Repr(items[i]))
  }
}
