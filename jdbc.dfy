/**
  The JDBC and Groovy collaborators the executor talks to, kept abstract:
  statements, connections, data sources and column values are opaque, and a
  result set is a forward-only cursor over rows already fetched.
 */
module Jdbc {
  import opened Wrappers

  /** A java.sql.PreparedStatement, as far as binding a parameter changes it. */
  type Statement
  /** A java.sql.Connection. */
  type Connection
  /** A javax.sql.DataSource. */
  type DataSource
  /** A column or parameter value (any Java object). */
  type Value

  /** Exceptions that reach callers: a failed non-null check, or an SQLException. */
  datatype Error = NullArgument(message: string) | SqlException(message: string)

  /** What the driver raises when a column is read while the cursor is not on a row. */
  const NotOnRow: Error := SqlException("result set is not positioned on a row")

  /**
    A forward-only result set (groovy.sql.GroovyResultSet): the metadata gives
    the column labels, and `position` is the current row, -1 before the first
    row and |rows| after the last.
   */
  class ResultCursor {
    const labels: seq<string>
    const rows: seq<seq<Value>>
    var position: int

    ghost predicate Valid()
      reads this
    {
      && -1 <= position <= |rows|
      && forall r :: 0 <= r < |rows| ==> |rows[r]| == |labels|
    }

    constructor (labels: seq<string>, rows: seq<seq<Value>>)
      requires forall r :: 0 <= r < |rows| ==> |rows[r]| == |labels|
      ensures Valid()
      ensures this.labels == labels && this.rows == rows && position == -1
    {
      this.labels := labels;
      this.rows := rows;
      position := -1;
    }

    predicate OnRow()
      reads this
    {
      0 <= position < |rows|
    }

    /** The rows that `next()` has not reached yet. */
    ghost function Remaining(): (r: seq<seq<Value>>)
      reads this
      requires Valid()
      ensures |r| <= |rows|
    {
      if position < |rows| then rows[position + 1..] else []
    }

    /** ResultSetMetaData.getColumnCount(). */
    function ColumnCount(): nat
      reads this
    {
      |labels|
    }

    /** ResultSetMetaData.getColumnLabel(i), 1-based. */
    function ColumnLabel(i: int): string
      reads this
      requires 1 <= i <= |labels|
    {
      labels[i - 1]
    }

    /** ResultSet.next(): moves to the following row and tells whether there is one. */
    method Next() returns (more: bool)
      requires Valid()
      modifies this`position
      ensures Valid()
      ensures position == if old(position) < |rows| then old(position) + 1 else old(position)
      ensures more == OnRow()
      ensures more ==> old(Remaining()) == [rows[position]] + Remaining()
      ensures !more ==> Remaining() == [] && old(Remaining()) == []
    {
      if position < |rows| {
        position := position + 1;
      }
      more := position < |rows|;
    }

    /** ResultSet.getObject(i), 1-based: the value of column i in the current row. */
    method GetObject(i: int) returns (r: Result<Value, Error>)
      requires Valid()
      requires 1 <= i <= |labels|
      ensures OnRow() ==> r == Ok(rows[position][i - 1])
      ensures !OnRow() ==> r == Fail(NotOnRow)
    {
      if 0 <= position < |rows| {
        r := Ok(rows[position][i - 1]);
      } else {
        r := Fail(NotOnRow);
      }
    }
  }
}
