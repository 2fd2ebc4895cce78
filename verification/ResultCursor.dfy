/** The client cursor that sqlrsh displays: a result set of rows of optional byte strings that
    arrives in blocks of whatever size the server sends. */
module ResultCursor {
  import opened Characters

  /** A field as getFieldForDisplay hands it on: a database null, the bytes as they are, the bytes
      of a column fetched as a number, or a column fetched as a boolean. */
  datatype Field =
    | NullField
    | RawField(bytes: string)
    | NumberField(bytes: string)
    | BooleanField(b: bool)

  function FieldBytes(f: Field): Option<string> {
    match f
    case NullField => None
    case BooleanField(b) => Some(if b then "true" else "false")
    case _ => Some(f.bytes)
  }

  function RowBytes(row: seq<Field>): seq<Option<string>> {
    seq(|row|, i requires 0 <= i < |row| => FieldBytes(row[i]))
  }

  function TableBytes(rows: seq<seq<Field>>): seq<seq<Option<string>>> {
    seq(|rows|, i requires 0 <= i < |rows| => RowBytes(rows[i]))
  }

  ghost predicate IsTable(rows: seq<seq<Field>>, colCount: nat) {
    && (forall i :: 0 <= i < |rows| ==> |rows[i]| == colCount)
    && (colCount == 0 ==> rows == [])
  }

  class ClientCursor {
    const names: seq<string>
    const types: seq<string>
    // all the rows the server is going to send
    const rows: seq<seq<Field>>

    var firstRowIndex: nat
    var rowCount: nat
    var endOfResultSet: bool

    ghost predicate Valid()
      reads this
    {
      && |types| == |names| && IsTable(rows, |names|)
      && firstRowIndex <= rowCount <= |rows|
      && (endOfResultSet ==> rowCount == |rows|)
    }

    constructor (names: seq<string>, types: seq<string>, rows: seq<seq<Field>>)
      requires |types| == |names| && IsTable(rows, |names|)
      ensures Valid() && firstRowIndex == 0
      ensures this.names == names && this.types == types && this.rows == rows
    {
      this.names, this.types, this.rows := names, types, rows;
      firstRowIndex, rowCount, endOfResultSet := 0, 0, false;
    }

    /** The next block.  The server sends at least one row while it has any, and may or may not
        say along with the last of them that there are no more. */
    method FetchBlock()
      requires Valid() && !endOfResultSet
      modifies this
      ensures Valid() && firstRowIndex == old(rowCount)
      ensures rowCount > old(rowCount) || endOfResultSet
    {
      firstRowIndex := rowCount;
      var received: nat :| received <= |rows| - rowCount && (received > 0 || rowCount == |rows|);
      var endToo: bool := *;
      rowCount := rowCount + received;
      endOfResultSet := received == 0 || (endToo && rowCount == |rows|);
    }

    method GetField(row: nat, col: nat) returns (f: Field)
      requires Valid() && col < |names| && firstRowIndex <= row
      modifies this
      ensures Valid()
      ensures row < |rows| ==> f == rows[row][col] && firstRowIndex <= row < rowCount
      ensures row >= |rows| ==> f == NullField && endOfResultSet
    {
      while row >= rowCount && !endOfResultSet
        invariant Valid() && firstRowIndex <= row
        decreases |rows| - rowCount, !endOfResultSet
      {
        FetchBlock();
      }
      f := if row < rowCount then rows[row][col] else NullField;
    }
  }
}
