/** The positional mapping from the rows of the organism aggregate query to
    the records the service returns: the fixed list of sixteen field names
    (`columns`) and the loop of `_fetch` that turns each row into a record by
    zipping those names against the row's positions. */
module Rows {

  /** A column value as the database driver hands it over. The query yields
      text, booleans, integers and NULLs; `metadata` is opaque structured text. */
  datatype Value = Null | Bool(b: bool) | Int(i: int) | Text(s: string)

  /** One result row: its values in the query's column order. */
  type Row = seq<Value>

  /** One organism record, as a dictionary from field name to value. */
  type Record = map<string, Value>

  /** The field names, in the order of the query's select list. */
  const Columns: seq<string> := [
    "commonName", "blatdb", "metadata", "obsolete", "directory",
    "publicMode", "valid", "genomeFastaIndex", "genus", "species", "id",
    "nonDefaultTranslationTable", "genomeFasta", "currentOrganism",
    "annotationCount", "sequences"
  ]

  function Min(a: nat, b: nat): nat { if a <= b then a else b }

  ghost predicate Distinct<T>(s: seq<T>) {
    forall i, j :: 0 <= i < j < |s| ==> s[i] != s[j]
  }

  /** The sixteen field names are pairwise different, so no field of a record
      can be overwritten by a later one. */
  lemma ColumnsDistinct()
    ensures |Columns| == 16 && Distinct(Columns)
  {
  }

  /** Python's `zip`: pairs up the two sequences position by position and
      stops at the end of the shorter one. */
  function Zip(ks: seq<string>, vs: seq<Value>): (ps: seq<(string, Value)>)
    ensures |ps| == Min(|ks|, |vs|)
    ensures forall i :: 0 <= i < |ps| ==> ps[i] == (ks[i], vs[i])
  {
    if ks == [] || vs == [] then [] else [(ks[0], vs[0])] + Zip(ks[1..], vs[1..])
  }

  /** No pair after position `i` has the key of the pair at `i`. */
  ghost predicate LastWithKey(ps: seq<(string, Value)>, i: int)
    requires 0 <= i < |ps|
  {
    forall j :: i < j < |ps| ==> ps[j].0 != ps[i].0
  }

  /** Python's `dict` over a sequence of pairs: pairs are inserted in order,
      so a later pair with the same key replaces an earlier one. */
  function DictOf(ps: seq<(string, Value)>): map<string, Value> {
    if ps == [] then map[] else DictOf(ps[..|ps| - 1])[ps[|ps| - 1].0 := ps[|ps| - 1].1]
  }

  /** A key is in the dictionary exactly when some pair carries it. */
  lemma {:induction false} DictOfHasKey(ps: seq<(string, Value)>, k: string)
    ensures k in DictOf(ps) <==> exists i :: 0 <= i < |ps| && ps[i].0 == k
  {
    if ps != [] {
      var n := |ps| - 1;
      var front := ps[..n];
      DictOfHasKey(front, k);
      if k != ps[n].0 && k in DictOf(ps) {
        var i :| 0 <= i < |front| && front[i].0 == k;
        assert ps[i] == front[i];
      }
      if k != ps[n].0 && exists i :: 0 <= i < |ps| && ps[i].0 == k {
        var i :| 0 <= i < |ps| && ps[i].0 == k;
        assert front[i] == ps[i];
      }
    }
  }

  /** The pair that carries a key last decides the value under that key. */
  lemma {:induction false} DictOfLastWins(ps: seq<(string, Value)>, i: int)
    requires 0 <= i < |ps| && LastWithKey(ps, i)
    ensures ps[i].0 in DictOf(ps) && DictOf(ps)[ps[i].0] == ps[i].1
  {
    var n := |ps| - 1;
    if i < n {
      var front := ps[..n];
      assert front[i] == ps[i];
      assert LastWithKey(front, i) by {
        forall j | i < j < |front| ensures front[j].0 != front[i].0 {
          assert front[j] == ps[j];
        }
      }
      DictOfLastWins(front, i);
    }
  }

  /** `dict(zip(columns, row))`, the record built from one row. */
  function ToRecord(row: Row): Record {
    DictOf(Zip(Columns, row))
  }

  /** A record has exactly the first min(16, |row|) field names as keys, and
      each of them is bound to the value at the same position of the row. */
  lemma RecordShape(row: Row)
    ensures forall k :: k in ToRecord(row) <==> k in Columns[..Min(|Columns|, |row|)]
    ensures forall i :: 0 <= i < |Columns| && i < |row| ==> Columns[i] in ToRecord(row) && ToRecord(row)[Columns[i]] == row[i]
  {
    ColumnsDistinct();
    var ps := Zip(Columns, row);
    var w := Columns[..Min(|Columns|, |row|)];
    forall k ensures k in ToRecord(row) <==> k in w {
      DictOfHasKey(ps, k);
      if k in w {
        var i :| 0 <= i < |w| && w[i] == k;
        assert ps[i].0 == k;
      }
      if exists i :: 0 <= i < |ps| && ps[i].0 == k {
        var i :| 0 <= i < |ps| && ps[i].0 == k;
        assert w[i] == k;
      }
    }
    forall i | 0 <= i < |Columns| && i < |row|
      ensures Columns[i] in ToRecord(row) && ToRecord(row)[Columns[i]] == row[i]
    {
      DictOfLastWins(ps, i);
    }
  }

  /** The records `_fetch` builds from the rows the query returned: one per
      row, in row order. */
  function Records(rows: seq<Row>): (rs: seq<Record>)
    ensures |rs| == |rows|
    ensures forall i :: 0 <= i < |rows| ==> rs[i] == ToRecord(rows[i])
  {
    if rows == [] then [] else Records(rows[..|rows| - 1]) + [ToRecord(rows[|rows| - 1])]
  }

  /** The loop of `_fetch`: walks the rows the query returned and appends one
      record per row. The execution of the query itself is not modelled; its
      result is the parameter `rows`. */
  method Fetch(rows: seq<Row>) returns (out: seq<Record>)
    ensures |out| == |rows|
    ensures forall i :: 0 <= i < |rows| ==> out[i] == ToRecord(rows[i])
    ensures out == Records(rows)
  {
    out := [];
    for n := 0 to |rows|
      invariant out == Records(rows[..n])
    {
      assert rows[..n + 1] == rows[..n] + [rows[n]];
      out := out + [ToRecord(rows[n])];
    }
    assert rows[..|rows|] == rows;
  }

  /** Every record of the result holds, under each field name that the row
      reaches, the value at that name's position in the row it came from. */
  lemma {:induction false} RecordsArePositional(rows: seq<Row>, i: int, j: int)
    requires 0 <= i < |rows| && 0 <= j < Min(|Columns|, |rows[i]|)
    ensures |Records(rows)| == |rows|
    ensures Columns[j] in Records(rows)[i] && Records(rows)[i][Columns[j]] == rows[i][j]
  {
    RecordShape(rows[i]);
  }

  /** A record holds no key outside the column list, and a full-width row
      gives a record with all sixteen fields. */
  lemma FullRowHasEveryField(row: Row)
    requires |row| == |Columns|
    ensures forall k :: k in ToRecord(row) <==> k in Columns
  {
    RecordShape(row);
    assert Columns[..Min(|Columns|, |row|)] == Columns;
  }
}
