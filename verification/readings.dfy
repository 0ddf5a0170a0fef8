/** Time-depth readings of a percolation test, as typed into the editable table,
    and the cleaning step that drops incomplete rows (pandas `dropna`). */
module Readings {

  datatype Option<+T> = None | Some(value: T)

  /** One row of the editable table: either cell may have been left empty. */
  datatype Row = Row(time: Option<real>, depth: Option<real>)

  /** A complete reading: time in minutes, depth to water in metres below ground level. */
  datatype Reading = Reading(time: real, depth: real)

  predicate Complete(row: Row) {
    row.time.Some? && row.depth.Some?
  }

  function ToReading(row: Row): Reading
    requires Complete(row)
  {
    Reading(row.time.value, row.depth.value)
  }

  /** The rows with both cells filled in, in their original order. */
  function Clean(rows: seq<Row>): (r: seq<Reading>)
    ensures |r| <= |rows|
  {
    if rows == [] then []
    else if Complete(rows[0]) then [ToReading(rows[0])] + Clean(rows[1..])
    else Clean(rows[1..])
  }

  /** Nothing is dropped exactly when every row is complete, and then every row
      survives unchanged and in place. */
  lemma {:induction false} CleanCompleteTable(rows: seq<Row>)
    ensures |Clean(rows)| == |rows| <==> forall i :: 0 <= i < |rows| ==> Complete(rows[i])
    ensures (forall i :: 0 <= i < |rows| ==> Complete(rows[i])) ==>
              forall i :: 0 <= i < |rows| ==> Clean(rows)[i] == ToReading(rows[i])
  {
    if rows != [] {
      CleanCompleteTable(rows[1..]);
      assert forall i :: 1 <= i < |rows| ==> rows[i] == rows[1..][i - 1];
    }
  }

  /** A reading survives cleaning exactly when some complete row holds it. */
  lemma {:induction false} CleanMembership(rows: seq<Row>, x: Reading)
    ensures x in Clean(rows) <==> exists row :: row in rows && Complete(row) && ToReading(row) == x
  {
    if rows != [] {
      CleanMembership(rows[1..], x);
      assert forall row :: row in rows <==> row == rows[0] || row in rows[1..];
    }
  }

  /** Cleaning works row by row: it distributes over concatenation. Together with the
      one-row cases this says that the surviving readings keep their relative order. */
  lemma {:induction false} CleanAppend(a: seq<Row>, b: seq<Row>)
    ensures Clean(a + b) == Clean(a) + Clean(b)
  {
    if a == [] {
      assert a + b == b;
    } else {
      assert (a + b)[1..] == a[1..] + b;
      CleanAppend(a[1..], b);
    }
  }

  /** Cleaning a single row keeps it exactly when it is complete. */
  lemma CleanSingle(row: Row)
    ensures Clean([row]) == if Complete(row) then [ToReading(row)] else []
  {
    assert [row][1..] == [];
  }
}
