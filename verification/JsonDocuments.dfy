/** The rows and the statistics that the json and jsonl writers of src/cmdline/sqlrsh.cpp put after the
    header. */
module JsonDocuments {
  import opened Characters
  import opened JsonText
  import opened JsonRoundTrip
  import opened ResultCursor
  import opened JsonDisplay

  // ------------------------------------------------------------ rows

  function RowOpen(index: nat, jsonl: bool): string {
    if jsonl then "{\"type\":\"row\",\"row\":{"
    else if index > 0 then ",[" else "["
  }

  function RowClose(jsonl: bool): string {
    if jsonl then "}}\n" else "]"
  }

  ghost function FieldText(names: seq<string>, row: seq<Field>, index: nat, jsonl: bool, n: nat): string
    requires |row| == |names| && n < |row|
  {
    (if n == 0 then RowOpen(index, jsonl) else ",")
    + (if jsonl then QuotedString(names[n]) + ":" else "")
    + Serialized(FieldJson(row[n]))
  }

  /** The first n fields of a row, with what is written in front of them. */
  ghost function RowStart(names: seq<string>, row: seq<Field>, index: nat, jsonl: bool, n: nat): string
    requires |row| == |names| && n <= |row|
  {
    if n == 0 then ""
    else RowStart(names, row, index, jsonl, n - 1) + FieldText(names, row, index, jsonl, n - 1)
  }

  ghost function RowText(names: seq<string>, row: seq<Field>, index: nat, jsonl: bool): string
    requires |row| == |names|
  {
    RowStart(names, row, index, jsonl, |names|) + RowClose(jsonl)
  }

  ghost function RowsText(names: seq<string>, rows: seq<seq<Field>>, jsonl: bool): string
    requires IsTable(rows, |names|)
  {
    if rows == [] then ""
    else
      var last := |rows| - 1;
      assert IsTable(rows[..last], |names|);
      RowsText(names, rows[..last], jsonl) + RowText(names, rows[last], last, jsonl)
  }

  function StatsText(stats: Option<Stats>, rowCount: nat, colCount: nat): string {
    SerializedMembers(StatsMembers(stats, rowCount, colCount))
  }

  function EndText(stats: Option<Stats>, rowCount: nat, colCount: nat, jsonl: bool): string {
    if jsonl then
      if stats.None? then ""
      else "{\"type\":\"stats\"," + StatsText(stats, rowCount, colCount) + "}\n"
    else
      "]" + (if stats.None? then "" else "," + StatsText(stats, rowCount, colCount)) + "}\n"
  }

  method JsonWriteField(out: StringBuffer, ghost row: seq<Field>, names: seq<string>, index: nat, col: nat,
                        field: Field, jsonl: bool)
    requires |row| == |names| && col < |row| && field == row[col]
    modifies out
    ensures out.text == old(out.text) + FieldText(names, row, index, jsonl, col)
  {
    hide Serialized, QuotedString;
    ghost var start := out.text;
    if col == 0 {
      out.Append(RowOpen(index, jsonl));
    } else {
      out.Append(",");
    }
    hide RowOpen;
    if jsonl {
      JsonWriteString(out, Some(names[col]));
      out.Append(":");
    }
    JsonWriteValue(out, field);
  }

  /** One row, or the discovery that there are no more. */
  method JsonDisplayRow(cur: ClientCursor, out: StringBuffer, row: nat, jsonl: bool) returns (done: bool)
    requires cur.Valid() && |cur.names| > 0 && cur.firstRowIndex <= row <= |cur.rows|
    modifies cur, out
    ensures cur.Valid() && cur.firstRowIndex <= row
    ensures done <==> row == |cur.rows|
    ensures done ==> cur.rowCount == |cur.rows| && out.text == old(out.text)
    ensures !done ==> out.text == old(out.text) + RowText(cur.names, cur.rows[row], row, jsonl)
  {
    hide FieldText;
    done := false;
    ghost var start := "";
    var col := 0;
    while col < |cur.names|
      invariant col <= |cur.names| && cur.Valid() && cur.firstRowIndex <= row
      invariant !done
      invariant col > 0 ==> row < |cur.rows|
      invariant row < |cur.rows| ==> start == RowStart(cur.names, cur.rows[row], row, jsonl, col)
      invariant row == |cur.rows| ==> start == ""
      invariant out.text == old(out.text) + start
    {
      var field := cur.GetField(row, col);
      if col == 0 && field.NullField? && cur.endOfResultSet && row == cur.rowCount {
        done := true;
        break;
      }
      start := start + FieldText(cur.names, cur.rows[row], row, jsonl, col);
      JsonWriteField(out, cur.rows[row], cur.names, row, col, field, jsonl);
      col := col + 1;
    }
    if !done {
      out.Append(RowClose(jsonl));
    }
  }

  method JsonWriteStats(out: StringBuffer, stats: Stats, rowCount: nat, colCount: nat)
    modifies out
    ensures out.text == old(out.text) + StatsText(Some(stats), rowCount, colCount)
  {
    StatsSpelledOut(stats, rowCount, colCount);
    hide StatsText, Decimal, Signed, Seconds, Named;
    out.Append(Named("affectedrows", Signed(stats.affectedRows)) + ","
               + Named("rowsreturned", Decimal(rowCount)) + ","
               + Named("fieldsreturned", Decimal(rowCount * colCount)));
    if stats.elapsed.Some? {
      out.Append("," + Named("elapsed", Seconds(stats.elapsed.value)));
    }
  }

  lemma StatsSpelledOut(stats: Stats, rowCount: nat, colCount: nat)
    ensures StatsText(Some(stats), rowCount, colCount) ==
      (Named("affectedrows", Signed(stats.affectedRows)) + ","
       + Named("rowsreturned", Decimal(rowCount)) + ","
       + Named("fieldsreturned", Decimal(rowCount * colCount)))
      + if stats.elapsed.None? then "" else "," + Named("elapsed", Seconds(stats.elapsed.value))
  {
    PlainNames();
    hide Decimal, Signed, Seconds, Named, IsPlain, SerializedMembers;
    if stats.elapsed.Some? {
      SingleNumber("elapsed", Seconds(stats.elapsed.value));
    }
    ThreeNumbers("affectedrows", Signed(stats.affectedRows), "rowsreturned", Decimal(rowCount),
                 "fieldsreturned", Decimal(rowCount * colCount), ElapsedMember(stats.elapsed));
  }

  lemma SingleNumber(a: string, x: string)
    requires IsPlain(a)
    ensures SerializedMembers([Member(a, Number(x))]) == Named(a, x)
  {
    PlainMember(a, Number(x));
    hide SerializedMembers, SerializedMember, Named, IsPlain;
    OneMember(Member(a, Number(x)), []);
    assert [Member(a, Number(x))] + [] == [Member(a, Number(x))];
  }

  lemma ThreeNumbers(a: string, x: string, b: string, y: string, c: string, z: string, more: seq<Member>)
    requires IsPlain(a) && IsPlain(b) && IsPlain(c)
    ensures SerializedMembers([Member(a, Number(x)), Member(b, Number(y)), Member(c, Number(z))] + more) ==
      (Named(a, x) + "," + Named(b, y) + "," + Named(c, z)) + if more == [] then "" else "," + SerializedMembers(more)
  {
    hide SerializedMembers, SerializedMember, Named, IsPlain;
    var ms := [Member(a, Number(x)), Member(b, Number(y)), Member(c, Number(z))];
    PlainMember(a, Number(x));
    PlainMember(b, Number(y));
    PlainMember(c, Number(z));
    assert ms + more == [ms[0], ms[1]] + ([ms[2]] + more);
    TwoMembers(ms[0], ms[1], [ms[2]] + more);
    OneMember(ms[2], more);
  }

  lemma PlainNames()
    ensures IsPlain("affectedrows") && IsPlain("rowsreturned") && IsPlain("fieldsreturned") && IsPlain("elapsed")
    ensures IsPlain("columns") && IsPlain("rows") && IsPlain("type") && IsPlain("row") && IsPlain("stats")
  {
  }

  method JsonCloseResultSet(out: StringBuffer, stats: Option<Stats>, rowCount: nat, colCount: nat, jsonl: bool)
    modifies out
    ensures out.text == old(out.text) + EndText(stats, rowCount, colCount, jsonl)
  {
    hide StatsText;
    ghost var start := out.text;
    ghost var text := if stats.Some? then StatsText(stats, rowCount, colCount) else "";
    if jsonl {
      if stats.Some? {
        out.Append("{\"type\":\"stats\",");
        JsonWriteStats(out, stats.value, rowCount, colCount);
        out.Append("}\n");
        Together(start, "{\"type\":\"stats\",", text, "}\n");
      }
    } else {
      out.Append("]");
      if stats.Some? {
        out.Append(",");
        JsonWriteStats(out, stats.value, rowCount, colCount);
        text := "," + text;
        assert out.text == start + "]" + text;
      }
      out.Append("}\n");
      Together(start, "]", text, "}\n");
    }
  }

  lemma Together(start: string, a: string, b: string, c: string)
    ensures start + a + b + c == start + (a + b + c)
  {
  }

  /** stats is None when the statistics are off. */
  method JsonDisplayResultSet(cur: ClientCursor, out: StringBuffer, jsonl: bool, stats: Option<Stats>)
    requires cur.Valid() && cur.firstRowIndex == 0
    modifies cur, out
    ensures cur.Valid()
    ensures out.text == old(out.text) + RowsText(cur.names, cur.rows, jsonl)
                      + EndText(stats, |cur.rows|, |cur.names|, jsonl)
  {
    hide RowText, EndText;
    var done := |cur.names| == 0;
    ghost var body := "";
    var row := 0;
    while !done
      invariant cur.Valid() && cur.firstRowIndex <= row
      invariant done ==> cur.rowCount == |cur.rows| && body == RowsText(cur.names, cur.rows, jsonl)
      invariant !done ==> row <= |cur.rows| && |cur.names| > 0
      invariant !done ==> IsTable(cur.rows[..row], |cur.names|) && body == RowsText(cur.names, cur.rows[..row], jsonl)
      invariant out.text == old(out.text) + body
      decreases !done, |cur.rows| - row
    {
      done := JsonDisplayRow(cur, out, row, jsonl);
      if !done {
        assert cur.rows[..row + 1][..row] == cur.rows[..row];
        body := body + RowText(cur.names, cur.rows[row], row, jsonl);
      } else {
        assert cur.rows[..row] == cur.rows;
      }
      row := row + 1;
    }

    JsonCloseResultSet(out, stats, cur.rowCount, |cur.names|, jsonl);
  }

  /** All that is written of a result set. */
  ghost function ResultSetText(names: seq<string>, types: seq<string>, rows: seq<seq<Field>>,
                               stats: Option<Stats>, jsonl: bool): string
    requires |names| == |types| && IsTable(rows, |names|)
  {
    HeaderText(names, types, jsonl) + RowsText(names, rows, jsonl) + EndText(stats, |rows|, |names|, jsonl)
  }
}
