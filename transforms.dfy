/**
 * The table operations the silver notebook chains together: `withColumn`
 * with `upper`, `regexp_replace` and a `when` chain, the shared
 * `dropColumns` helper, and `dropDuplicates` on a business key. Each one
 * returns a new table; none changes its input.
 */
module Transforms {
  import opened Tables
  import opened Text

  /**
   * `withColumn(dst, f(col(src)))`: every row's `dst` cell becomes `f` of its
   * `src` cell, `dst` joins the schema when new, and nothing else changes.
   */
  function Derive(t: Table, src: string, dst: string, f: Value -> Value): (r: Table)
    requires WellFormed(t) && src in t.schema
    ensures WellFormed(r) && r.schema == t.schema + {dst}
    ensures |r.rows| == |t.rows|
    ensures forall i :: 0 <= i < |t.rows| ==>
              && SameOutside(t.rows[i], r.rows[i], {dst})
              && dst in r.rows[i] && r.rows[i][dst] == f(t.rows[i][src])
  {
    Table(t.schema + {dst}, seq(|t.rows|, i requires 0 <= i < |t.rows| => t.rows[i][dst := f(t.rows[i][src])]))
  }

  // ---------------------------------------------------------------- dropColumns

  /**
   * `dropColumns(df, names)`: removes the named columns from the schema and
   * from every row; a name the table does not have is ignored.
   */
  function DropColumns(t: Table, names: seq<string>): (r: Table)
    requires WellFormed(t)
    ensures WellFormed(r) && r.schema == t.schema - NameSet(names)
    ensures |r.rows| == |t.rows|
    ensures forall i :: 0 <= i < |t.rows| ==> SameOutside(t.rows[i], r.rows[i], NameSet(names))
    ensures forall i, n :: 0 <= i < |r.rows| && n in names ==> n !in r.rows[i]
  {
    var drop := NameSet(names);
    Table(t.schema - drop, seq(|t.rows|, i requires 0 <= i < |t.rows| => t.rows[i] - drop))
  }

  /** Dropping columns the table does not have gives back the same table. */
  lemma DropAbsentIsNoOp(t: Table, names: seq<string>)
    requires WellFormed(t)
    requires forall n :: n in names ==> n !in t.schema
    ensures DropColumns(t, names) == t
  {
    var r := DropColumns(t, names);
    forall i | 0 <= i < |t.rows| ensures r.rows[i] == t.rows[i] {
      assert r.rows[i].Keys == t.rows[i].Keys;
    }
  }

  /** Dropping the same columns twice is dropping them once. */
  lemma DropColumnsIdempotent(t: Table, names: seq<string>)
    requires WellFormed(t)
    ensures DropColumns(DropColumns(t, names), names) == DropColumns(t, names)
  {
    DropAbsentIsNoOp(DropColumns(t, names), names);
  }

  // ---------------------------------------------------------------- upper

  /** Spark's `upper` on one cell: null stays null, an integer is first cast to its decimal string. */
  function UpperValue(v: Value): (u: Value)
    ensures u.VNull? <==> v.VNull?
    ensures u.VStr? ==> IsUpperCased(u.s)
    ensures v.VStr? ==> u.VStr? && |u.s| == |v.s|
    ensures v.VStr? && IsUpperCased(v.s) ==> u == v
    ensures v.VInt? ==> u == VStr(DecimalString(v.n)) && DecimalValue(u.s) == v.n
  {
    match v
    case VStr(s) => VStr(Upper(s))
    case VInt(n) =>
      UpperDecimalString(n);
      DecimalRoundTrip(n);
      VStr(Upper(DecimalString(n)))
    case VNull => VNull
  }

  /** Upper-casing a cell twice is upper-casing it once. */
  lemma UpperValueIdempotent(v: Value)
    ensures UpperValue(UpperValue(v)) == UpperValue(v)
  {
  }

  /**
   * `withColumn(c, upper(col(c)))`: fails when `c` is not a column; otherwise
   * upper-cases column `c` of every row and leaves every other cell alone.
   */
  function UpperCol(t: Table, c: string): (r: Result<Table>)
    requires WellFormed(t)
    ensures r.Err? <==> c !in t.schema
    ensures r.Err? ==> r.error == UnresolvedColumn(c)
    ensures r.Ok? ==> WellFormed(r.value) && r.value.schema == t.schema && |r.value.rows| == |t.rows|
    ensures r.Ok? ==> forall i :: 0 <= i < |t.rows| ==>
              && SameOutside(t.rows[i], r.value.rows[i], {c})
              && r.value.rows[i][c] == UpperValue(t.rows[i][c])
  {
    if c !in t.schema then Err(UnresolvedColumn(c)) else Ok(Derive(t, c, c, UpperValue))
  }

  /** Upper-casing a column twice is upper-casing it once. */
  lemma UpperColIdempotent(t: Table, c: string)
    requires WellFormed(t) && c in t.schema
    ensures UpperCol(UpperCol(t, c).value, c) == UpperCol(t, c)
  {
    var once := UpperCol(t, c).value;
    var twice := UpperCol(once, c).value;
    forall i | 0 <= i < |t.rows| ensures twice.rows[i] == once.rows[i] {
      UpperValueIdempotent(t.rows[i][c]);
      assert twice.rows[i].Keys == once.rows[i].Keys;
    }
    assert twice.rows == once.rows;
  }

  // ---------------------------------------------------------------- regexp_replace

  /** `regexp_replace` of a one-character pattern without regular-expression meaning on one cell: null stays null, an integer is cast first. */
  function ReplaceValue(v: Value, from: char, to: char): (u: Value)
    ensures u.VNull? <==> v.VNull?
    ensures u.VStr? && from != to ==> from !in u.s
    ensures v.VStr? ==> u.VStr? && |u.s| == |v.s|
    ensures v.VStr? ==> forall i :: 0 <= i < |v.s| && v.s[i] != from ==> u.s[i] == v.s[i]
    ensures v.VStr? ==> forall i :: 0 <= i < |v.s| && v.s[i] == from ==> u.s[i] == to
  {
    match v
    case VStr(s) => VStr(ReplaceEach(s, from, to))
    case VInt(n) => VStr(ReplaceEach(DecimalString(n), from, to))
    case VNull => VNull
  }

  /**
   * On an integer cell and a pattern that is not a digit, only the sign can
   * change: the hyphen of a negative number becomes `to`, the digits stay.
   */
  lemma ReplaceValueOfInt(n: int, from: char, to: char)
    requires !IsDigit(from)
    ensures ReplaceValue(VInt(n), from, to)
         == VStr(if n < 0 && from == '-' then [to] + Digits(-n) else DecimalString(n))
  {
    var s := DecimalString(n);
    var r := ReplaceEach(s, from, to);
    if n < 0 {
      assert s == ['-'] + Digits(-n);
      assert forall i :: 0 < i < |s| ==> s[i] != from;
      if from == '-' {
        assert r == [to] + Digits(-n);
      } else {
        assert r == s;
      }
    } else {
      assert s[0] != '-' && IsDigit(s[0]);
      assert forall i :: 0 <= i < |s| ==> s[i] != from;
      assert r == s;
    }
  }

  /** Replacing in a cell twice is replacing once. */
  lemma ReplaceValueIdempotent(v: Value, from: char, to: char)
    ensures ReplaceValue(ReplaceValue(v, from, to), from, to) == ReplaceValue(v, from, to)
  {
    match v
    case VStr(s) => ReplaceEachIdempotent(s, from, to);
    case VInt(n) => ReplaceEachIdempotent(DecimalString(n), from, to);
    case VNull =>
  }

  /**
   * `withColumn(c, regexp_replace(col(c), from, to))` for a one-character
   * pattern that is not a metacharacter (such as `-`): fails when `c` is not a column; otherwise column `c` of every row
   * has each `from` replaced by `to` and every other cell is left alone.
   */
  function ReplaceChar(t: Table, c: string, from: char, to: char): (r: Result<Table>)
    requires WellFormed(t)
    ensures r.Err? <==> c !in t.schema
    ensures r.Err? ==> r.error == UnresolvedColumn(c)
    ensures r.Ok? ==> WellFormed(r.value) && r.value.schema == t.schema && |r.value.rows| == |t.rows|
    ensures r.Ok? ==> forall i :: 0 <= i < |t.rows| ==>
              && SameOutside(t.rows[i], r.value.rows[i], {c})
              && r.value.rows[i][c] == ReplaceValue(t.rows[i][c], from, to)
  {
    if c !in t.schema then Err(UnresolvedColumn(c)) else Ok(Derive(t, c, c, v => ReplaceValue(v, from, to)))
  }

  /** Replacing in a column twice is replacing once. */
  lemma ReplaceCharIdempotent(t: Table, c: string, from: char, to: char)
    requires WellFormed(t) && c in t.schema
    ensures ReplaceChar(ReplaceChar(t, c, from, to).value, c, from, to) == ReplaceChar(t, c, from, to)
  {
    var once := ReplaceChar(t, c, from, to).value;
    var twice := ReplaceChar(once, c, from, to).value;
    forall i | 0 <= i < |t.rows| ensures twice.rows[i] == once.rows[i] {
      ReplaceValueIdempotent(t.rows[i][c], from, to);
      assert twice.rows[i].Keys == once.rows[i].Keys;
    }
    assert twice.rows == once.rows;
  }

  // ---------------------------------------------------------------- duration buckets

  /** Upper bounds (exclusive) of the "Short" and "Medium" buckets, in seconds. */
  const ShortLimit := 150
  const MediumLimit := 300

  predicate IsDurationLabel(l: string) {
    l == "Short" || l == "Medium" || l == "Long"
  }

  /** Position of a label in the order Short < Medium < Long. */
  function LabelRank(l: string): nat {
    if l == "Short" then 0 else if l == "Medium" then 1 else 2
  }

  /** The `when(d < 150, "Short").when(d < 300, "Medium").otherwise("Long")` chain on an integer. */
  function DurationLabel(d: int): (l: string)
    ensures IsDurationLabel(l)
    ensures l == "Short" <==> d < ShortLimit
    ensures l == "Medium" <==> ShortLimit <= d < MediumLimit
    ensures l == "Long" <==> MediumLimit <= d
  {
    if d < ShortLimit then "Short" else if d < MediumLimit then "Medium" else "Long"
  }

  /** The boundary cases: 149 is Short, 150 and 299 are Medium, 300 is Long. */
  lemma DurationLabelBoundaries()
    ensures DurationLabel(149) == "Short" && DurationLabel(150) == "Medium"
    ensures DurationLabel(299) == "Medium" && DurationLabel(300) == "Long"
  {
  }

  /** A longer duration never gets an earlier label. */
  lemma DurationLabelMonotone(d1: int, d2: int)
    requires d1 <= d2
    ensures LabelRank(DurationLabel(d1)) <= LabelRank(DurationLabel(d2))
  {
  }

  /**
   * The `when` chain on one cell. A null comparison is not true, so a null
   * duration falls through both `when`s to "Long". String cells never reach
   * here: BucketDuration rejects them first.
   */
  function FlagValue(v: Value): (f: Value)
    ensures f.VStr? && IsDurationLabel(f.s)
    ensures v.VInt? ==> f == VStr(DurationLabel(v.n))
    ensures v.VNull? ==> f == VStr("Long")
  {
    match v
    case VInt(n) => VStr(DurationLabel(n))
    case _ => VStr("Long")
  }

  /** Some row holds a string in column `c`. */
  predicate HasStringCell(t: Table, c: string)
    requires WellFormed(t) && c in t.schema
  {
    exists i :: 0 <= i < |t.rows| && t.rows[i][c].VStr?
  }

  /**
   * `withColumn(dst, when(col(src) < 150, "Short").when(col(src) < 300,
   * "Medium").otherwise("Long"))`: fails when `src` is not a column or holds a
   * string; otherwise every row gains (or has replaced) a `dst` label computed
   * from its `src` cell, and every other cell is left alone.
   */
  function BucketDuration(t: Table, src: string, dst: string): (r: Result<Table>)
    requires WellFormed(t)
    ensures r.Err? <==> src !in t.schema || HasStringCell(t, src)
    ensures src !in t.schema ==> r == Err(UnresolvedColumn(src))
    ensures src in t.schema && HasStringCell(t, src) ==> r == Err(NotComparable(src))
    ensures r.Ok? ==> WellFormed(r.value) && r.value.schema == t.schema + {dst} && |r.value.rows| == |t.rows|
    ensures r.Ok? ==> forall i :: 0 <= i < |t.rows| ==>
              && SameOutside(t.rows[i], r.value.rows[i], {dst})
              && dst in r.value.rows[i]
              && r.value.rows[i][dst].VStr? && IsDurationLabel(r.value.rows[i][dst].s)
              && r.value.rows[i][dst] == FlagValue(t.rows[i][src])
  {
    if src !in t.schema then Err(UnresolvedColumn(src))
    else if HasStringCell(t, src) then Err(NotComparable(src))
    else Ok(Derive(t, src, dst, FlagValue))
  }

  /** Over integer durations the flags follow the durations' order. */
  lemma BucketDurationMonotone(t: Table, src: string, dst: string, i: nat, j: nat)
    requires WellFormed(t) && BucketDuration(t, src, dst).Ok?
    requires i < |t.rows| && j < |t.rows|
    requires t.rows[i][src].VInt? && t.rows[j][src].VInt? && t.rows[i][src].n <= t.rows[j][src].n
    ensures var r := BucketDuration(t, src, dst).value;
      LabelRank(r.rows[i][dst].s) <= LabelRank(r.rows[j][dst].s)
  {
    DurationLabelMonotone(t.rows[i][src].n, t.rows[j][src].n);
  }

  // ---------------------------------------------------------------- dropDuplicates

  /**
   * What `dropDuplicates([key])` promises within one batch, whichever
   * duplicate it keeps: only input rows survive, no two share a key, and
   * every key of the input survives.
   */
  predicate IsDeduplication(input: seq<Row>, output: seq<Row>, key: string)
    requires HasKey(input, key)
  {
    && (forall i :: 0 <= i < |output| ==> output[i] in input)
    && HasKey(output, key)
    && KeysUnique(output, key)
    && KeySet(output, key) == KeySet(input, key)
  }

  /**
   * One admissible choice of survivors: the first row with each key not in
   * `seen`, in input order.
   */
  function KeepFirst(rows: seq<Row>, key: string, seen: set<Value>): (out: seq<Row>)
    requires HasKey(rows, key)
    ensures forall i :: 0 <= i < |out| ==> out[i] in rows
    ensures HasKey(out, key) && KeysUnique(out, key)
    ensures forall i :: 0 <= i < |out| ==> out[i][key] !in seen
    ensures KeySet(out, key) == KeySet(rows, key) - seen
    decreases |rows|
  {
    if rows == [] then []
    else
      var rest := rows[1..];
      if rows[0][key] in seen then KeepFirst(rest, key, seen)
      else
        var tail := KeepFirst(rest, key, seen + {rows[0][key]});
        assert ([rows[0]] + tail)[1..] == tail;
        [rows[0]] + tail
  }

  /**
   * `dropDuplicates([key])`: fails when `key` is not a column; otherwise keeps
   * one row per key value and leaves the schema as it was.
   */
  function DedupByKey(t: Table, key: string): (r: Result<Table>)
    requires WellFormed(t)
    ensures r.Err? <==> key !in t.schema
    ensures r.Err? ==> r.error == UnresolvedColumn(key)
    ensures r.Ok? ==> WellFormed(r.value) && r.value.schema == t.schema
    ensures r.Ok? ==> IsDeduplication(t.rows, r.value.rows, key)
  {
    if key !in t.schema then Err(UnresolvedColumn(key))
    else Ok(Table(t.schema, KeepFirst(t.rows, key, {})))
  }

  /**
   * Any deduplication holds exactly one row per distinct key, so it is never
   * longer than its input.
   */
  lemma DeduplicationSize(input: seq<Row>, output: seq<Row>, key: string)
    requires HasKey(input, key) && IsDeduplication(input, output, key)
    ensures |output| == |KeySet(input, key)| <= |input|
  {
    KeySetSize(input, key);
    KeySetSize(output, key);
  }

  /** What a DedupByKey run delivers, spelled out for its callers. */
  lemma DedupByKeySpec(t: Table, key: string)
    requires WellFormed(t) && key in t.schema
    ensures HasKey(t.rows, key)
    ensures var out := DedupByKey(t, key).value.rows;
      && HasKey(out, key)
      && KeysUnique(out, key)
      && KeySet(out, key) == KeySet(t.rows, key)
      && |out| == |KeySet(t.rows, key)| <= |t.rows|
      && forall i :: 0 <= i < |out| ==> out[i] in t.rows
  {
    var out := DedupByKey(t, key).value.rows;
    assert IsDeduplication(t.rows, out, key);
    DeduplicationSize(t.rows, out, key);
  }

  /** `o` stands in relation `rel` to at least one row of `input`. */
  predicate ComesFrom(o: Row, input: seq<Row>, rel: (Row, Row) -> bool) {
    exists j :: 0 <= j < |input| && rel(input[j], o)
  }

  /**
   * A relation every row has with its image under a row-wise step also holds
   * between each row that survives a later deduplication and some input row.
   */
  lemma SurvivorsComeFrom(input: seq<Row>, mapped: seq<Row>, out: seq<Row>, rel: (Row, Row) -> bool)
    requires |mapped| == |input|
    requires forall j :: 0 <= j < |input| ==> rel(input[j], mapped[j])
    requires forall i :: 0 <= i < |out| ==> out[i] in mapped
    ensures forall i :: 0 <= i < |out| ==> ComesFrom(out[i], input, rel)
  {
    forall i | 0 <= i < |out| ensures ComesFrom(out[i], input, rel) {
      var j :| 0 <= j < |mapped| && out[i] == mapped[j];
      assert rel(input[j], mapped[j]);
    }
  }

  /** When the input keys are already unique, a deduplication keeps every input row. */
  lemma DeduplicationOfUniqueKeepsAll(input: seq<Row>, output: seq<Row>, key: string)
    requires HasKey(input, key) && KeysUnique(input, key) && IsDeduplication(input, output, key)
    ensures forall j :: 0 <= j < |input| ==> input[j] in output
    ensures |output| == |input|
  {
    KeySetMembers(input, key);
    KeySetMembers(output, key);
    forall j | 0 <= j < |input| ensures input[j] in output {
      var i :| 0 <= i < |output| && output[i][key] == input[j][key];
      var j' :| 0 <= j' < |input| && input[j'] == output[i];
      assert j' == j;
    }
    DeduplicationSize(input, output, key);
    KeySetSize(input, key);
  }
}
