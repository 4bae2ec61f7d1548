/**
 * DataFrames as the silver notebook sees them: a set of column names and a
 * bounded batch of rows, each row a map from column name to cell value.
 */
module Tables {

  /**
   * A cell: a string, an integer or null. Only the columns the modelled steps
   * read need a type; the others are carried along as they are.
   */
  datatype Value = VStr(s: string) | VInt(n: int) | VNull

  /** One record: column name to value. */
  type Row = map<string, Value>

  /** A DataFrame: its columns (order is not modelled) and its rows, in order. */
  datatype Table = Table(schema: set<string>, rows: seq<Row>)

  /** Every row carries exactly the table's columns, as in a Spark DataFrame. */
  predicate WellFormed(t: Table) {
    forall i :: 0 <= i < |t.rows| ==> t.rows[i].Keys == t.schema
  }

  /** Why a transformation of the model fails. */
  datatype Error =
    | UnresolvedColumn(name: string)  // Spark's error: a referenced column is not in the schema
    | NotComparable(name: string)     // the model's rejection of a string cell in a numeric comparison

  /** Outcome of a transformation that can fail; usable with `:-`. */
  datatype Result<T> = Ok(value: T) | Err(error: Error) {
    predicate IsFailure() { Err? }

    function PropagateFailure<U>(): Result<U>
      requires Err?
    {
      Err(error)
    }

    function Extract(): T
      requires Ok?
    {
      value
    }
  }

  /** The set of names in a column list. */
  function NameSet(names: seq<string>): (s: set<string>)
    ensures forall n :: n in s <==> n in names
  {
    set n | n in names
  }

  /** Two rows agree outside `cols`: same columns present, same values there. */
  predicate SameOutside(a: Row, b: Row, cols: set<string>) {
    && (forall k :: k in a && k !in cols ==> k in b && a[k] == b[k])
    && (forall k :: k in b && k !in cols ==> k in a)
  }

  /** Agreement outside a set of columns composes, the excluded sets adding up. */
  lemma SameOutsideTrans(a: Row, b: Row, c: Row, x: set<string>, y: set<string>)
    requires SameOutside(a, b, x) && SameOutside(b, c, y)
    ensures SameOutside(a, c, x + y)
  {
  }

  /** Every row has column `key`. */
  predicate HasKey(rows: seq<Row>, key: string) {
    forall i :: 0 <= i < |rows| ==> key in rows[i]
  }

  /** The values column `key` takes over `rows`. */
  function KeySet(rows: seq<Row>, key: string): set<Value>
    requires HasKey(rows, key)
  {
    if rows == [] then {} else {rows[0][key]} + KeySet(rows[1..], key)
  }

  /** No two rows share a value of column `key`. */
  predicate KeysUnique(rows: seq<Row>, key: string)
    requires HasKey(rows, key)
  {
    forall i, j :: 0 <= i < j < |rows| ==> rows[i][key] != rows[j][key]
  }

  /** A value is in KeySet exactly when some row holds it. */
  lemma {:induction false} KeySetMembers(rows: seq<Row>, key: string)
    requires HasKey(rows, key)
    ensures forall i :: 0 <= i < |rows| ==> rows[i][key] in KeySet(rows, key)
    ensures forall v :: v in KeySet(rows, key) ==> exists i :: 0 <= i < |rows| && rows[i][key] == v
  {
    if rows != [] {
      KeySetMembers(rows[1..], key);
      forall v | v in KeySet(rows, key)
        ensures exists i :: 0 <= i < |rows| && rows[i][key] == v
      {
        if v != rows[0][key] {
          var j :| 0 <= j < |rows[1..]| && rows[1..][j][key] == v;
          assert rows[j + 1][key] == v;
        }
      }
    }
  }

  /**
   * There are never more distinct keys than rows, and exactly as many when
   * the keys are unique.
   */
  lemma {:induction false} KeySetSize(rows: seq<Row>, key: string)
    requires HasKey(rows, key)
    ensures |KeySet(rows, key)| <= |rows|
    ensures KeysUnique(rows, key) ==> |KeySet(rows, key)| == |rows|
  {
    if rows != [] {
      var rest := rows[1..];
      KeySetSize(rest, key);
      if KeysUnique(rows, key) {
        assert KeysUnique(rest, key) by {
          forall i, j | 0 <= i < j < |rest| ensures rest[i][key] != rest[j][key] {
            assert rest[i] == rows[i + 1] && rest[j] == rows[j + 1];
          }
        }
        KeySetMembers(rest, key);
        assert forall j :: 0 <= j < |rest| ==> rest[j][key] != rows[0][key] by {
          forall j | 0 <= j < |rest| ensures rest[j][key] != rows[0][key] {
            assert rest[j] == rows[j + 1];
          }
        }
      }
    }
  }

  /** KeySet depends only on the key column, row by row. */
  lemma {:induction false} KeySetPointwise(a: seq<Row>, b: seq<Row>, key: string)
    requires HasKey(a, key) && HasKey(b, key) && |a| == |b|
    requires forall i :: 0 <= i < |a| ==> a[i][key] == b[i][key]
    ensures KeySet(a, key) == KeySet(b, key)
  {
    if a != [] {
      KeySetPointwise(a[1..], b[1..], key);
    }
  }
}
