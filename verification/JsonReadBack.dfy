/** What the json and jsonl writers leave is the serialization of one document, or of one object a line. */
module JsonReadBack {
  import opened Characters
  import opened JsonText
  import opened JsonNumber
  import opened JsonRoundTrip
  import opened ResultCursor
  import opened JsonDisplay
  import opened JsonDocuments

  // ------------------------------------------------------------ what was written is a serialization

  lemma {:induction false} ArrayRowStart(names: seq<string>, row: seq<Field>, index: nat, n: nat)
    requires |row| == |names| && 0 < n <= |row|
    ensures RowStart(names, row, index, false, n) ==
      (if index > 0 then "," else "") + "[" + SerializedItems(RowJsons(row)[..n])
  {
    hide Serialized, SerializedItems;
    var items := RowJsons(row);
    if n == 1 {
      assert RowStart(names, row, index, false, 0) == "";
      assert items[..1] == [items[0]];
      SingleItem(items[0]);
    } else {
      ArrayRowStart(names, row, index, n - 1);
      assert items[..n] == items[..n - 1] + [items[n - 1]];
      ItemsAppended(items[..n - 1], items[n - 1]);
    }
  }

  lemma SingleItem(x: Json)
    ensures SerializedItems([x]) == Serialized(x)
  {
  }

  lemma SingleMember(m: Member)
    ensures SerializedMembers([m]) == SerializedMember(m)
  {
  }

  lemma {:induction false} RowsAreAnArray(names: seq<string>, rows: seq<seq<Field>>)
    requires IsTable(rows, |names|)
    ensures RowsText(names, rows, false) == SerializedItems(RowArrays(rows))
  {
    hide RowText, SerializedItems;
    if rows == [] {
      NothingSerialized();
      assert RowArrays(rows) == [];
    } else {
      var last := |rows| - 1;
      RowsAreAnArray(names, rows[..last]);
      var row := rows[last];
      assert RowArrays(rows) == RowArrays(rows[..last]) + [Array(RowJsons(row))];
      ItemsAppended(RowArrays(rows[..last]), Array(RowJsons(row)));
      RowIsAnArray(names, row, last);
    }
  }

  lemma RowIsAnArray(names: seq<string>, row: seq<Field>, index: nat)
    requires |row| == |names| > 0
    ensures RowText(names, row, index, false) ==
      (if index > 0 then "," else "") + Serialized(Array(RowJsons(row)))
  {
    hide RowStart, SerializedItems;
    ArrayRowStart(names, row, index, |row|);
    assert RowJsons(row)[..|row|] == RowJsons(row);
  }

  lemma {:induction false} ObjectRowStart(names: seq<string>, row: seq<Field>, index: nat, n: nat)
    requires |row| == |names| && 0 < n <= |row|
    ensures RowStart(names, row, index, true, n) ==
      RowOpen(index, true) + SerializedMembers(RowMembers(names, row)[..n])
  {
    hide Serialized, SerializedMembers, QuotedString, RowOpen;
    var members := RowMembers(names, row);
    if n == 1 {
      assert RowStart(names, row, index, true, 0) == "";
      assert members[..1] == [members[0]];
      SingleMember(members[0]);
    } else {
      ObjectRowStart(names, row, index, n - 1);
      assert members[..n] == members[..n - 1] + [members[n - 1]];
      MembersAppended(members[..n - 1], members[n - 1]);
    }
  }

  lemma RowIsALine(names: seq<string>, row: seq<Field>, index: nat)
    requires |row| == |names| > 0
    ensures RowText(names, row, index, true) == Serialized(RowLine(names, row)) + "\n"
  {
    PlainNames();
    hide RowStart, RowOpen, RowClose, SerializedMembers, QuotedString, Typed, IsPlain;
    var members := RowMembers(names, row);
    ObjectRowStart(names, row, index, |row|);
    assert members[..|row|] == members;
    TypedObject("row", "row", Object(members));
    RowParts(index, SerializedMembers(members));
  }

  /** A one-line object with a type and one other member. */
  function Typed(kind: string, name: string, value: string): string {
    "{\"type\":\"" + kind + "\",\"" + name + "\":" + value + "}"
  }

  lemma RowParts(index: nat, members: string)
    ensures RowOpen(index, true) + members + RowClose(true) == Typed("row", "row", "{" + members + "}") + "\n"
  {
  }

  lemma TypedObject(kind: string, name: string, value: Json)
    requires IsPlain(kind) && IsPlain(name)
    ensures Serialized(Object([Member("type", String(kind)), Member(name, value)])) ==
      Typed(kind, name, Serialized(value))
  {
    var a, b := Member("type", String(kind)), Member(name, value);
    hide SerializedMembers, QuotedString, EscapedAll, IsPlain;
    PlainNames();
    PlainMember("type", a.value);
    PlainMember(name, value);
    PlainQuoted(kind);
    assert Serialized(a.value) == "\"" + kind + "\"";
    TwoMembers(a, b, []);
    assert [a, b] + [] == [a, b];
  }

  lemma {:induction false} RowsAreLines(names: seq<string>, rows: seq<seq<Field>>)
    requires IsTable(rows, |names|)
    ensures RowsText(names, rows, true) == LinesText(RowLines(names, rows))
  {
    hide RowText, Serialized;
    if rows == [] {
      assert RowLines(names, rows) == [];
    } else {
      var last := |rows| - 1;
      RowsAreLines(names, rows[..last]);
      assert RowLines(names, rows) == RowLines(names, rows[..last]) + [RowLine(names, rows[last])];
      LinesAppend(RowLines(names, rows[..last]), [RowLine(names, rows[last])]);
      SingleLine(RowLine(names, rows[last]));
      RowIsALine(names, rows[last], last);
    }
  }

  lemma {:induction false} LinesAppend(a: seq<Json>, b: seq<Json>)
    ensures LinesText(a + b) == LinesText(a) + LinesText(b)
  {
    hide Serialized;
    if a == [] {
      assert a + b == b;
    } else {
      LinesAppend(a[1..], b);
      assert (a + b)[1..] == a[1..] + b;
    }
  }

  lemma SingleLine(j: Json)
    ensures LinesText([j]) == Serialized(j) + "\n"
  {
    hide Serialized;
    assert LinesText([j][1..]) == "";
  }

  /** An object of two arrays and any other members. */
  lemma TwoArrays(a: string, xs: seq<Json>, b: string, ys: seq<Json>, more: seq<Member>)
    requires IsPlain(a) && IsPlain(b)
    ensures Serialized(Object([Member(a, Array(xs)), Member(b, Array(ys))] + more)) ==
      "{" + (Named(a, "[" + SerializedItems(xs) + "]") + "," + Named(b, "[" + SerializedItems(ys) + "]")
             + (if more == [] then "" else "," + SerializedMembers(more))) + "}"
  {
    hide SerializedItems, SerializedMembers, IsPlain, Named;
    PlainMember(a, Array(xs));
    PlainMember(b, Array(ys));
    TwoMembers(Member(a, Array(xs)), Member(b, Array(ys)), more);
  }

  /** The json document, newline and all, is what the header and the result set writers leave. */
  lemma DocumentIsWritten(names: seq<string>, types: seq<string>, rows: seq<seq<Field>>, stats: Option<Stats>)
    requires |names| == |types| && IsTable(rows, |names|)
    ensures ResultSetText(names, types, rows, stats, false)
         == Serialized(Document(names, types, rows, stats)) + "\n"
  {
    var members := StatsMembers(stats, |rows|, |names|);
    assert members == [] <==> stats.None?;
    RowsAreAnArray(names, rows);
    PlainNames();
    hide SerializedItems, SerializedMembers, Serialized, RowsText, IsPlain, Named, StatsMembers, ListOpen, ListClose;
    TwoArrays("columns", ColumnJsons(names, types), "rows", RowArrays(rows), members);
    var cs, rt := SerializedItems(ColumnJsons(names, types)), SerializedItems(RowArrays(rows));
    DocumentParts(cs, rt);
    Assembled(ListOpen(false) + cs + ListClose(false) + rt,
              Named("columns", "[" + cs + "]") + "," + Named("rows", "[" + rt + "]"),
              if stats.None? then "" else "," + SerializedMembers(members));
  }

  lemma Assembled(front: string, members: string, tail: string)
    requires front + "]" == "{" + members
    ensures front + ("]" + tail + "}\n") == "{" + (members + tail) + "}" + "\n"
  {
    assert front + ("]" + tail + "}\n") == (front + "]") + (tail + "}\n");
    assert "{" + (members + tail) + "}" + "\n" == ("{" + members) + (tail + "}\n");
  }

  lemma DocumentParts(cols: string, rows: string)
    ensures "{" + (Named("columns", "[" + cols + "]") + "," + Named("rows", "[" + rows + "]"))
         == ListOpen(false) + cols + ListClose(false) + rows + "]"
  {
  }

  /** So are the jsonl lines. */
  lemma LinesAreWritten(names: seq<string>, types: seq<string>, rows: seq<seq<Field>>, stats: Option<Stats>)
    requires |names| == |types| && IsTable(rows, |names|)
    ensures ResultSetText(names, types, rows, stats, true)
         == LinesText(Lines(names, types, rows, stats))
  {
    hide LinesText, RowsText, HeaderText, EndText, ColumnsLine, RowLines, StatsLine;
    var first, middle := ColumnsLine(names, types), RowLines(names, rows);
    HeaderIsALine(names, types);
    RowsAreLines(names, rows);
    LinesAppend([first], middle);
    SingleLine(first);
    if stats.None? {
      StatsAreALine(stats, |rows|, |names|);
      assert Lines(names, types, rows, stats) == [first] + middle;
    } else {
      var last := StatsLine(stats, |rows|, |names|);
      StatsAreALine(stats, |rows|, |names|);
      SingleLine(last);
      LinesAppend([first] + middle, [last]);
    }
  }

  lemma HeaderIsALine(names: seq<string>, types: seq<string>)
    requires |names| == |types|
    ensures HeaderText(names, types, true) == Serialized(ColumnsLine(names, types)) + "\n"
  {
    PlainNames();
    hide SerializedItems, Typed, IsPlain, ListOpen, ListClose;
    TypedObject("columns", "columns", Array(ColumnJsons(names, types)));
    HeaderParts(SerializedItems(ColumnJsons(names, types)));
  }

  lemma HeaderParts(cols: string)
    ensures ListOpen(true) + cols + ListClose(true) == Typed("columns", "columns", "[" + cols + "]") + "\n"
  {
  }

  lemma StatsAreALine(stats: Option<Stats>, rowCount: nat, colCount: nat)
    ensures EndText(stats, rowCount, colCount, true) ==
      if stats.None? then "" else Serialized(StatsLine(stats, rowCount, colCount)) + "\n"
  {
    if stats.Some? {
      var members := StatsMembers(stats, rowCount, colCount);
      assert members != [];
      PlainNames();
      hide SerializedMembers, Serialized, IsPlain, StatsMembers, TypedFirst;
      TypedMembers("stats", members);
      StatsParts(SerializedMembers(members));
    }
  }

  /** The front of an object with a type and other members. */
  function TypedFirst(kind: string): string {
    "{\"type\":\"" + kind + "\","
  }

  lemma StatsParts(members: string)
    ensures TypedFirst("stats") + members + "}\n" == "{\"type\":\"stats\"," + members + "}\n"
  {
  }

  lemma TypedMembers(kind: string, more: seq<Member>)
    requires IsPlain(kind) && more != []
    ensures Serialized(Object([Member("type", String(kind))] + more)) ==
      TypedFirst(kind) + SerializedMembers(more) + "}"
  {
    PlainNames();
    hide SerializedMembers, SerializedMember, IsPlain, QuotedString;
    PlainQuoted(kind);
    OneMember(Member("type", String(kind)), more);
    PlainMember("type", String(kind));
  }
}
