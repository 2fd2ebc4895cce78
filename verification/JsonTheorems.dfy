/** A reader gets every result set back, from the json document and from the jsonl lines. */
module JsonTheorems {
  import opened Characters
  import Timeouts
  import opened JsonText
  import opened JsonNumber
  import opened JsonRoundTrip
  import opened ResultCursor
  import opened JsonDisplay
  import opened JsonDocuments
  import opened JsonReadBack

  // ------------------------------------------------------------ everything written is well formed

  lemma {:induction false} WellFormedItems(items: seq<Json>)
    requires forall i :: 0 <= i < |items| ==> IsWellFormed(items[i])
    ensures AreWellFormed(items)
  {
    hide IsWellFormed;
    if |items| > 0 {
      WellFormedItems(items[1..]);
    }
  }

  lemma {:induction false} WellFormedMembers(members: seq<Member>)
    requires forall i :: 0 <= i < |members| ==> IsWellFormed(members[i].value)
    ensures AreWellFormedMembers(members)
  {
    hide IsWellFormed;
    if |members| > 0 {
      WellFormedMembers(members[1..]);
    }
  }

  lemma {:induction false} DecimalDigits(n: nat)
    ensures IsInt(Decimal(n))
    ensures n > 0 ==> Decimal(n)[0] != '0'
  {
    if n >= 10 {
      DecimalDigits(n / 10);
    }
  }

  lemma DecimalIsNumber(n: nat)
    ensures IsNumber(Decimal(n))
  {
    DecimalDigits(n);
    assert Decimal(n) == "" + Decimal(n) + "" + "";
    assert IsNumberSplit(Decimal(n), "", Decimal(n), "", "");
  }

  lemma SignedIsNumber(n: int)
    ensures IsNumber(Signed(n))
  {
    if n >= 0 {
      DecimalIsNumber(n);
    } else {
      DecimalDigits(-n);
      assert Signed(n) == "-" + Decimal(-n) + "" + "";
      assert IsNumberSplit(Signed(n), "-", Decimal(-n), "", "");
    }
  }

  lemma SecondsAreANumber(microseconds: nat)
    ensures IsNumber(Seconds(microseconds))
  {
    var whole, frac := Decimal(microseconds / 1000000), "." + Timeouts.SixDigits(microseconds % 1000000);
    DecimalDigits(microseconds / 1000000);
    assert frac[1..] == Timeouts.SixDigits(microseconds % 1000000);
    hide Decimal, Timeouts.SixDigits;
    assert Seconds(microseconds) == "" + whole + frac + "";
    assert IsNumberSplit(Seconds(microseconds), "", whole, frac, "");
  }

  lemma StatsAreWellFormed(stats: Option<Stats>, rowCount: nat, colCount: nat)
    ensures forall i :: 0 <= i < |StatsMembers(stats, rowCount, colCount)| ==>
      IsWellFormed(StatsMembers(stats, rowCount, colCount)[i].value)
  {
    hide IsNumber;
    if stats.Some? {
      SignedIsNumber(stats.value.affectedRows);
      DecimalIsNumber(rowCount);
      DecimalIsNumber(rowCount * colCount);
      SecondsAreANumber(stats.value.elapsed.GetOr(0));
    }
  }

  lemma ColumnsAreWellFormed(names: seq<string>, types: seq<string>)
    requires |names| == |types|
    ensures IsWellFormed(Array(ColumnJsons(names, types)))
  {
    forall i | 0 <= i < |names|
      ensures IsWellFormed(ColumnJsons(names, types)[i])
    {
      WellFormedMembers(ColumnJson(names[i], types[i]).members);
    }
    WellFormedItems(ColumnJsons(names, types));
  }

  lemma DocumentIsWellFormed(names: seq<string>, types: seq<string>, rows: seq<seq<Field>>, stats: Option<Stats>)
    requires |names| == |types|
    ensures IsWellFormed(Document(names, types, rows, stats))
  {
    ColumnsAreWellFormed(names, types);
    forall i | 0 <= i < |rows|
      ensures IsWellFormed(RowArrays(rows)[i])
    {
      WellFormedItems(RowJsons(rows[i]));
    }
    WellFormedItems(RowArrays(rows));
    StatsAreWellFormed(stats, |rows|, |names|);
    WellFormedMembers(Document(names, types, rows, stats).members);
  }

  lemma LinesAreWellFormed(names: seq<string>, types: seq<string>, rows: seq<seq<Field>>, stats: Option<Stats>)
    requires |names| == |types| && IsTable(rows, |names|)
    ensures var lines := Lines(names, types, rows, stats);
      forall i :: 0 <= i < |lines| ==> IsWellFormed(lines[i])
  {
    ColumnsAreWellFormed(names, types);
    WellFormedMembers(ColumnsLine(names, types).members);
    forall i | 0 <= i < |rows|
      ensures IsWellFormed(RowLine(names, rows[i]))
    {
      WellFormedMembers(RowMembers(names, rows[i]));
      WellFormedMembers(RowLine(names, rows[i]).members);
    }
    StatsAreWellFormed(stats, |rows|, |names|);
    WellFormedMembers(StatsLine(stats, |rows|, |names|).members);
  }

  // ------------------------------------------------------------ the result set in a document

  datatype Table = Table(names: seq<string>, types: seq<string>, rows: seq<seq<Option<string>>>)

  /** The bytes of a field, or None for a null. */
  function BytesOf(j: Json): Option<string> {
    match j
    case Boolean(b) => Some(if b then "true" else "false")
    case Number(lexeme) => Some(lexeme)
    case String(chars) => Some(chars)
    case _ => None
  }

  /** The value of the first member of an object that has a name. */
  function ValueOf(j: Json, name: string): (r: Option<Json>)
    ensures r.Some? ==> j.Object?
  {
    if j.Object? then FirstNamed(j.members, name) else None
  }

  function FirstNamed(members: seq<Member>, name: string): Option<Json> {
    if members == [] then None
    else if members[0].name == name then Some(members[0].value)
    else FirstNamed(members[1..], name)
  }

  function StringOf(j: Option<Json>): string {
    if j.Some? && j.value.String? then j.value.chars else ""
  }

  function ItemsOf(j: Option<Json>): seq<Json> {
    if j.Some? && j.value.Array? then j.value.items else []
  }

  function ItemBytes(j: Json): seq<Option<string>> {
    if j.Array? then seq(|j.items|, i requires 0 <= i < |j.items| => BytesOf(j.items[i])) else []
  }

  /** The names or the types in a list of columns. */
  function ColumnStrings(cols: seq<Json>, name: string): seq<string> {
    seq(|cols|, i requires 0 <= i < |cols| => StringOf(ValueOf(cols[i], name)))
  }

  /** What a document says: the columns and the rows. */
  function TableOf(j: Json): Table {
    var cols, rows := ItemsOf(ValueOf(j, "columns")), ItemsOf(ValueOf(j, "rows"));
    Table(ColumnStrings(cols, "name"), ColumnStrings(cols, "type"),
          seq(|rows|, i requires 0 <= i < |rows| => ItemBytes(rows[i])))
  }

  /** A field is a null, a number or a boolean in JSON iff it was fetched as one, and for a number if its bytes
      are one too; otherwise it is a string. */
  ghost predicate SaysField(j: Json, f: Field) {
    && (j.Null? <==> f.NullField?)
    && (j.Number? <==> f.NumberField? && IsNumber(f.bytes))
    && (j.Boolean? <==> f.BooleanField?)
    && (j.String? <==> f.RawField? || (f.NumberField? && !IsNumber(f.bytes)))
    && BytesOf(j) == FieldBytes(f)
  }

  ghost predicate SaysRowOf(items: seq<Json>, row: seq<Field>) {
    |items| == |row| && forall k :: 0 <= k < |row| ==> SaysField(items[k], row[k])
  }

  /** The statistics, by name, are there iff they are to be shown. */
  predicate SaysStats(j: Json, stats: Option<Stats>, rowCount: nat, colCount: nat) {
    match stats
    case None =>
      && ValueOf(j, "affectedrows").None? && ValueOf(j, "rowsreturned").None?
      && ValueOf(j, "fieldsreturned").None? && ValueOf(j, "elapsed").None?
    case Some(s) =>
      && ValueOf(j, "affectedrows") == Some(Number(Signed(s.affectedRows)))
      && ValueOf(j, "rowsreturned") == Some(Number(Decimal(rowCount)))
      && ValueOf(j, "fieldsreturned") == Some(Number(Decimal(rowCount * colCount)))
      && ValueOf(j, "elapsed") == (match s.elapsed case None => None case Some(us) => Some(Number(Seconds(us))))
  }

  lemma FieldSaysItsBytes(f: Field)
    ensures BytesOf(FieldJson(f)) == FieldBytes(f)
  {
    hide IsNumber;
  }

  lemma RowSaysItsBytes(row: seq<Field>)
    ensures ItemBytes(Array(RowJsons(row))) == RowBytes(row)
  {
    hide BytesOf, FieldJson, FieldBytes;
    forall k | 0 <= k < |row|
      ensures BytesOf(FieldJson(row[k])) == FieldBytes(row[k])
    {
      FieldSaysItsBytes(row[k]);
    }
  }

  lemma FieldIsSaid(f: Field)
    ensures SaysField(FieldJson(f), f)
  {
    hide IsNumber;
  }

  lemma RowIsSaid(row: seq<Field>)
    ensures SaysRowOf(RowJsons(row), row)
  {
    hide SaysField, FieldJson;
    forall k | 0 <= k < |row| ensures SaysField(RowJsons(row)[k], row[k]) {
      FieldIsSaid(row[k]);
    }
  }

  lemma NamedFirst(m: Member, more: seq<Member>, name: string)
    ensures FirstNamed([m] + more, name) == if m.name == name then Some(m.value) else FirstNamed(more, name)
  {
    assert ([m] + more)[1..] == more;
  }

  lemma ColumnSays(name: string, columntype: string)
    ensures ValueOf(ColumnJson(name, columntype), "name") == Some(String(name))
    ensures ValueOf(ColumnJson(name, columntype), "type") == Some(String(columntype))
  {
    hide FirstNamed;
    TwoNamed(Member("name", String(name)), Member("type", String(columntype)), "name");
    TwoNamed(Member("name", String(name)), Member("type", String(columntype)), "type");
  }

  lemma TwoNamed(a: Member, b: Member, name: string)
    ensures FirstNamed([a, b], name)
         == if a.name == name then Some(a.value) else if b.name == name then Some(b.value) else None
  {
    assert FirstNamed([], name) == None;
    hide FirstNamed;
    NamedFirst(a, [b] + [], name);
    NamedFirst(b, [], name);
    assert [a] + ([b] + []) == [a, b];
  }

  lemma ColumnsSay(names: seq<string>, types: seq<string>)
    requires |names| == |types|
    ensures ColumnStrings(ColumnJsons(names, types), "name") == names
    ensures ColumnStrings(ColumnJsons(names, types), "type") == types
  {
    hide ValueOf;
    forall i | 0 <= i < |names|
      ensures StringOf(ValueOf(ColumnJsons(names, types)[i], "name")) == names[i]
      ensures StringOf(ValueOf(ColumnJsons(names, types)[i], "type")) == types[i]
    {
      ColumnSays(names[i], types[i]);
    }
  }

  /** The statistics' names, and no others. */
  lemma StatsSay(stats: Option<Stats>, rowCount: nat, colCount: nat)
    ensures SaysStats(Object(StatsMembers(stats, rowCount, colCount)), stats, rowCount, colCount)
  {
    hide Decimal, Signed, Seconds;
    if stats.Some? {
      var members := StatsMembers(stats, rowCount, colCount);
      var more := ElapsedMember(stats.value.elapsed);
      assert members == [members[0]] + ([members[1]] + ([members[2]] + more));
      assert more == [] || more == [more[0]] + [];
      hide FirstNamed, StatsMembers;
      StatNamed(members, more, "affectedrows");
      StatNamed(members, more, "rowsreturned");
      StatNamed(members, more, "fieldsreturned");
      StatNamed(members, more, "elapsed");
    }
  }

  lemma StatNamed(members: seq<Member>, more: seq<Member>, name: string)
    requires |members| >= 3 && members == [members[0]] + ([members[1]] + ([members[2]] + more))
    requires more == [] || more == [more[0]] + []
    ensures FirstNamed(members, name) ==
      if members[0].name == name then Some(members[0].value)
      else if members[1].name == name then Some(members[1].value)
      else if members[2].name == name then Some(members[2].value)
      else if more != [] && more[0].name == name then Some(more[0].value) else None
  {
    assert FirstNamed([], name) == None;
    hide FirstNamed;
    NamedFirst(members[0], [members[1]] + ([members[2]] + more), name);
    NamedFirst(members[1], [members[2]] + more, name);
    NamedFirst(members[2], more, name);
    if more != [] {
      NamedFirst(more[0], [], name);
    }
  }

  lemma DocumentValue(names: seq<string>, types: seq<string>, rows: seq<seq<Field>>, stats: Option<Stats>, name: string)
    requires |names| == |types|
    ensures ValueOf(Document(names, types, rows, stats), name)
         == if name == "columns" then Some(Array(ColumnJsons(names, types)))
            else if name == "rows" then Some(Array(RowArrays(rows)))
            else FirstNamed(StatsMembers(stats, |rows|, |names|), name)
  {
    var cols, data := Member("columns", Array(ColumnJsons(names, types))), Member("rows", Array(RowArrays(rows)));
    var more := StatsMembers(stats, |rows|, |names|);
    hide StatsMembers, FirstNamed, ColumnJsons, RowArrays;
    assert [cols, data] + more == [cols] + ([data] + more);
    NamedFirst(cols, [data] + more, name);
    NamedFirst(data, more, name);
  }

  lemma RowsSayTheirBytes(rows: seq<seq<Field>>)
    ensures
      var items := RowArrays(rows);
      seq(|items|, i requires 0 <= i < |items| => ItemBytes(items[i])) == TableBytes(rows)
  {
    hide RowJsons, RowBytes, ItemBytes;
    forall i | 0 <= i < |rows|
      ensures ItemBytes(RowArrays(rows)[i]) == RowBytes(rows[i])
    {
      RowSaysItsBytes(rows[i]);
    }
  }

  lemma DocumentSaysTheTable(names: seq<string>, types: seq<string>, rows: seq<seq<Field>>, stats: Option<Stats>)
    requires |names| == |types|
    ensures
      var j := Document(names, types, rows, stats);
      && TableOf(j) == Table(names, types, TableBytes(rows))
      && ItemsOf(ValueOf(j, "rows")) == RowArrays(rows)
      && SaysStats(j, stats, |rows|, |names|)
  {
    StatsSay(stats, |rows|, |names|);
    hide Document, StatsMembers, FirstNamed, ColumnJsons, RowArrays, ColumnStrings, ItemBytes, TableBytes, Decimal, Signed, Seconds;
    ColumnsSay(names, types);
    RowsSayTheirBytes(rows);
    DocumentValue(names, types, rows, stats, "columns");
    DocumentValue(names, types, rows, stats, "rows");
    DocumentValue(names, types, rows, stats, "affectedrows");
    DocumentValue(names, types, rows, stats, "rowsreturned");
    DocumentValue(names, types, rows, stats, "fieldsreturned");
    DocumentValue(names, types, rows, stats, "elapsed");
  }

  /** JSON documents read back: for every result set, with any columns and rows, none of either,
      and nulls anywhere, a reader accepts what is written and gets from it the column names and
      types, and each field of each row with its own bytes, a null as a null, a number or a boolean as one if
      it was fetched as one, and the statistics. */
  lemma JsonReadsBack(names: seq<string>, types: seq<string>, rows: seq<seq<Field>>, stats: Option<Stats>)
    requires |names| == |types| && IsTable(rows, |names|)
    ensures
      var read := ReadText(ResultSetText(names, types, rows, stats, false));
      && read == Some(Document(names, types, rows, stats))
      && TableOf(read.value) == Table(names, types, TableBytes(rows))
      && var items := ItemsOf(ValueOf(read.value, "rows"));
         |items| == |rows|
         && (forall i :: 0 <= i < |rows| ==> items[i].Array? && SaysRowOf(items[i].items, rows[i]))
         && SaysStats(read.value, stats, |rows|, |names|)
  {
    hide ResultSetText, Document, Serialized, ReadText, TableOf, TableBytes, IsWellFormed, SaysStats, SaysRowOf;
    DocumentIsWritten(names, types, rows, stats);
    DocumentIsWellFormed(names, types, rows, stats);
    TextReadsBack(Document(names, types, rows, stats), true);
    DocumentSaysTheTable(names, types, rows, stats);
    forall i | 0 <= i < |rows| ensures SaysRowOf(RowJsons(rows[i]), rows[i]) {
      RowIsSaid(rows[i]);
    }
  }

  /** The header and the result set, as every command that displays a result set writes them. */
  method JsonDisplayCurrentResultSet(cur: ClientCursor, out: StringBuffer, jsonl: bool, stats: Option<Stats>)
    requires cur.Valid() && cur.firstRowIndex == 0
    modifies cur, out
    ensures out.text == old(out.text) +
      if jsonl then LinesText(Lines(cur.names, cur.types, cur.rows, stats))
      else Serialized(Document(cur.names, cur.types, cur.rows, stats)) + "\n"
  {
    hide HeaderText, RowsText, EndText, Document, Lines, LinesText, Serialized;
    JsonDisplayHeader(out, cur, jsonl);
    JsonDisplayResultSet(cur, out, jsonl, stats);
    assert out.text == old(out.text) + (HeaderText(cur.names, cur.types, jsonl) + RowsText(cur.names, cur.rows, jsonl)
                                        + EndText(stats, |cur.rows|, |cur.names|, jsonl));
    if jsonl {
      LinesAreWritten(cur.names, cur.types, cur.rows, stats);
    } else {
      DocumentIsWritten(cur.names, cur.types, cur.rows, stats);
    }
  }

  // ------------------------------------------------------------ one object a line

  lemma {:induction false} NoNewlineEscaped(s: string)
    ensures '\n' !in EscapedAll(s)
  {
    if s != "" {
      NoNewlineEscaped(s[1..]);
      assert '\n' !in Escaped(s[0]);
    }
  }

  lemma {:induction false} NoNewlineInValue(j: Json)
    requires IsWellFormed(j)
    ensures '\n' !in Serialized(j)
    decreases j, 1
  {
    match j
    case Number(lexeme) => NumberChars(lexeme);
    case String(chars) => NoNewlineEscaped(chars);
    case Array(items) => NoNewlineInItems(items);
    case Object(members) => NoNewlineInMembers(members);
    case _ =>
  }

  lemma {:induction false} NoNewlineInItems(items: seq<Json>)
    requires AreWellFormed(items)
    ensures '\n' !in SerializedItems(items)
    decreases items, 0
  {
    hide Serialized;
    if |items| > 0 {
      NoNewlineInValue(items[0]);
      NoNewlineInItems(items[1..]);
    }
  }

  lemma {:induction false} NoNewlineInMembers(members: seq<Member>)
    requires AreWellFormedMembers(members)
    ensures '\n' !in SerializedMembers(members)
    decreases members, 0
  {
    hide Serialized, EscapedAll;
    if |members| > 0 {
      NoNewlineEscaped(members[0].name);
      NoNewlineInValue(members[0].value);
      NoNewlineInMembers(members[1..]);
    }
  }

  /** Where the first newline is, or the end of s. */
  function LineEnd(s: string): (r: nat)
    ensures r <= |s|
    ensures '\n' !in s[..r]
    ensures r < |s| ==> s[r] == '\n'
  {
    if s == "" || s[0] == '\n' then 0
    else
      var r := 1 + LineEnd(s[1..]);
      assert s[..r] == [s[0]] + s[1..][..r - 1];
      r
  }

  lemma {:induction false} LineEndIs(line: string, rest: string)
    requires '\n' !in line
    ensures LineEnd(line + "\n" + rest) == |line|
  {
    if line != "" {
      LineEndIs(line[1..], rest);
      assert (line + "\n" + rest)[1..] == line[1..] + "\n" + rest;
    }
  }

  /** The JSON texts of a text of lines, each ended by a newline. */
  ghost function ReadLines(s: string): Option<seq<Json>>
    decreases |s|
  {
    if s == "" then Some([])
    else
      var end := LineEnd(s);
      if end == |s| then None
      else
        match (ReadText(s[..end]), ReadLines(s[end + 1..]))
        case (Some(j), Some(js)) => Some([j] + js)
        case _ => None
  }

  lemma {:induction false} LinesReadBack(lines: seq<Json>)
    requires forall i :: 0 <= i < |lines| ==> IsWellFormed(lines[i])
    ensures ReadLines(LinesText(lines)) == Some(lines)
  {
    if lines == [] {
      assert LinesText(lines) == "";
    } else {
      var line, rest := Serialized(lines[0]), LinesText(lines[1..]);
      assert LinesText(lines) == line + "\n" + rest;
      hide ReadText, ReadLines, Serialized, IsWellFormed, LinesText;
      LinesReadBack(lines[1..]);
      NoNewlineInValue(lines[0]);
      TextReadsBack(lines[0], false);
      assert line + "" == line;
      LineReadsBack(line, rest, lines[0], lines[1..]);
      assert lines == [lines[0]] + lines[1..];
    }
  }

  lemma LineReadsBack(line: string, rest: string, j: Json, js: seq<Json>)
    requires '\n' !in line && ReadText(line) == Some(j) && ReadLines(rest) == Some(js)
    ensures ReadLines(line + "\n" + rest) == Some([j] + js)
  {
    hide ReadText, LineEnd;
    LineEndIs(line, rest);
    var s := line + "\n" + rest;
    assert s[..|line|] == line;
    assert s[|line| + 1..] == rest;
  }

  /** The names and the bytes of an object. */
  function MemberBytes(j: Json): seq<(string, Option<string>)> {
    if j.Object? then
      seq(|j.members|, i requires 0 <= i < |j.members| => (j.members[i].name, BytesOf(j.members[i].value)))
    else []
  }

  /** A line of jsonl holds a row, keyed by column name, in column order. */
  ghost predicate SaysRow(line: Json, names: seq<string>, row: seq<Field>)
    requires |row| == |names|
  {
    && line.Object? && |line.members| == 2
    && line.members[0] == Member("type", String("row")) && line.members[1].name == "row"
    && MemberBytes(line.members[1].value) ==
         seq(|names|, c requires 0 <= c < |names| => (names[c], FieldBytes(row[c])))
    && SaysRowOf(ValuesOf(line.members[1].value), row)
  }

  function ValuesOf(j: Json): seq<Json> {
    if j.Object? then seq(|j.members|, i requires 0 <= i < |j.members| => j.members[i].value) else []
  }

  predicate SaysColumns(line: Json, names: seq<string>, types: seq<string>) {
    && ValueOf(line, "type") == Some(String("columns"))
    && ColumnStrings(ItemsOf(ValueOf(line, "columns")), "name") == names
    && ColumnStrings(ItemsOf(ValueOf(line, "columns")), "type") == types
  }

  /** jsonl reads back a line at a time: the first line holds the columns, line k + 1 the names, the kinds and
      the bytes of row k, and the last one the statistics. */
  lemma JsonlReadsBack(names: seq<string>, types: seq<string>, rows: seq<seq<Field>>, stats: Option<Stats>)
    requires |names| == |types| && IsTable(rows, |names|)
    ensures
      var read := ReadLines(ResultSetText(names, types, rows, stats, true));
      && read == Some(Lines(names, types, rows, stats))
      && |read.value| == 1 + |rows| + (if stats.None? then 0 else 1)
      && SaysColumns(read.value[0], names, types)
      && (forall k :: 0 <= k < |rows| ==> SaysRow(read.value[k + 1], names, rows[k]))
      && (stats.Some? ==>
            && ValueOf(read.value[|rows| + 1], "type") == Some(String("stats"))
            && SaysStats(read.value[|rows| + 1], stats, |rows|, |names|))
  {
    hide ResultSetText, LinesText, ReadLines, IsWellFormed, Lines, SaysRow, SaysColumns, SaysStats, ValueOf;
    LinesAreWritten(names, types, rows, stats);
    LinesAreWellFormed(names, types, rows, stats);
    LinesReadBack(Lines(names, types, rows, stats));
    LinesSayTheTable(names, types, rows, stats);
  }

  lemma LinesSayTheTable(names: seq<string>, types: seq<string>, rows: seq<seq<Field>>, stats: Option<Stats>)
    requires |names| == |types| && IsTable(rows, |names|)
    ensures
      var lines := Lines(names, types, rows, stats);
      && |lines| == 1 + |rows| + (if stats.None? then 0 else 1)
      && SaysColumns(lines[0], names, types)
      && (forall k :: 0 <= k < |rows| ==> SaysRow(lines[k + 1], names, rows[k]))
      && (stats.Some? ==>
            && ValueOf(lines[|rows| + 1], "type") == Some(String("stats"))
            && SaysStats(lines[|rows| + 1], stats, |rows|, |names|))
  {
    ColumnsLineSays(names, types);
    StatsLineSays(stats, |rows|, |names|);
    hide IsNumber, ColumnsLine, StatsLine, SaysRow, SaysColumns, SaysStats, ValueOf;
    var lines := Lines(names, types, rows, stats);
    forall k | 0 <= k < |rows|
      ensures SaysRow(lines[k + 1], names, rows[k])
    {
      assert lines[k + 1] == RowLines(names, rows)[k] == RowLine(names, rows[k]);
      RowSaysTheBytes(names, rows[k]);
    }
  }

  lemma ColumnsLineSays(names: seq<string>, types: seq<string>)
    requires |names| == |types|
    ensures SaysColumns(ColumnsLine(names, types), names, types)
  {
    var a, b := Member("type", String("columns")), Member("columns", Array(ColumnJsons(names, types)));
    ColumnsSay(names, types);
    hide ColumnStrings, ColumnJsons, FirstNamed;
    TwoNamed(a, b, "type");
    TwoNamed(a, b, "columns");
  }

  lemma StatsLineSays(stats: Option<Stats>, rowCount: nat, colCount: nat)
    ensures ValueOf(StatsLine(stats, rowCount, colCount), "type") == Some(String("stats"))
    ensures SaysStats(StatsLine(stats, rowCount, colCount), stats, rowCount, colCount)
  {
    var a, more := Member("type", String("stats")), StatsMembers(stats, rowCount, colCount);
    StatsSay(stats, rowCount, colCount);
    hide FirstNamed, StatsMembers, Decimal, Signed, Seconds;
    NamedFirst(a, more, "type");
    NamedFirst(a, more, "affectedrows");
    NamedFirst(a, more, "rowsreturned");
    NamedFirst(a, more, "fieldsreturned");
    NamedFirst(a, more, "elapsed");
  }

  lemma RowSaysTheBytes(names: seq<string>, row: seq<Field>)
    requires |row| == |names|
    ensures SaysRow(RowLine(names, row), names, row)
  {
    hide IsNumber;
    var members := RowMembers(names, row);
    assert RowLine(names, row).members[1].value == Object(members);
    RowIsSaid(row);
    assert ValuesOf(Object(members)) == RowJsons(row);
    hide SaysRowOf, FieldJson;
    forall c | 0 <= c < |names|
      ensures MemberBytes(Object(members))[c] == (names[c], FieldBytes(row[c]))
    {
      FieldSaysItsBytes(row[c]);
    }
  }
}
