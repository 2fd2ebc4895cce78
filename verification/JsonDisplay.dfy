/** The json and jsonl writers of src/cmdline/sqlrsh.cpp: strings, values and headers, and the JSON
    documents that all of their pieces are to add up to. */
module JsonDisplay {
  import opened Characters
  import Timeouts
  import opened JsonText
  import opened JsonRoundTrip
  import opened JsonNumber
  import opened ResultCursor

  // ------------------------------------------------------------ strings

  lemma {:induction false} EscapedAllAppends(s: string, t: string)
    ensures EscapedAll(s + t) == EscapedAll(s) + EscapedAll(t)
  {
    NothingEscaped();
    hide EscapedAll, Escaped;
    if s == "" {
      assert s + t == t;
    } else {
      EscapedFirst(s[0], s[1..]);
      EscapedFirst(s[0], s[1..] + t);
      EscapedAllAppends(s[1..], t);
      assert s == [s[0]] + s[1..] && s + t == [s[0]] + (s[1..] + t);
    }
  }

  lemma EscapedAllSnoc(s: string, c: char)
    ensures EscapedAll(s + [c]) == EscapedAll(s) + Escaped(c)
  {
    NothingEscaped();
    hide EscapedAll, Escaped;
    EscapedAllAppends(s, [c]);
    EscapedFirst(c, "");
    assert [c] + "" == [c] && Escaped(c) + "" == Escaped(c);
  }

  /** The escape a character needs, or None for one that is written as it is. */
  function EscapeFor(c: char): (r: Option<string>)
    ensures Escaped(c) == match r case None => [c] case Some(e) => e
  {
    match c
    case '"' => Some("\\\"")
    case '\\' => Some("\\\\")
    case '\U{08}' => Some("\\b")
    case '\U{0C}' => Some("\\f")
    case '\n' => Some("\\n")
    case '\r' => Some("\\r")
    case '\t' => Some("\\t")
    case _ =>
      if c < ' ' then Some("\\u00" + [HexDigit(c as nat / 16), HexDigit(c as nat % 16)]) else None
  }

  /** No escape is longer than it has to be: two characters where there is a letter for it, six for the other
      bytes below a space, and all other bytes are written as they are. */
  lemma EscapesAreShort(c: char)
    ensures |Escaped(c)| == (if c in {'"', '\\', '\U{08}', '\U{0C}', '\n', '\r', '\t'} then 2 else if c < ' ' then 6 else 1)
    ensures |Escaped(c)| == 1 ==> Escaped(c) == [c]
  {
  }

  /** Runs of characters that need no escape are written whole. */
  method JsonEscapeString(fd: StringBuffer, str: string)
    modifies fd
    ensures fd.text == old(fd.text) + EscapedAll(str)
  {
    hide EscapedAll, Escaped, EscapeFor;
    assert EscapedAll("") == "" by {
      NothingEscaped();
    }
    var start := 0;
    var index := 0;
    while index < |str|
      invariant 0 <= start <= index <= |str|
      invariant fd.text + str[start..index] == old(fd.text) + EscapedAll(str[..index])
    {
      assert str[..index + 1] == str[..index] + [str[index]];
      EscapedAllSnoc(str[..index], str[index]);
      var escape := EscapeFor(str[index]);
      if escape.Some? {
        fd.Append(str[start..index]);
        fd.Append(escape.value);
        start := index + 1;
        assert fd.text + str[start..index + 1] == fd.text;
      } else {
        assert fd.text + str[start..index + 1] == (fd.text + str[start..index]) + [str[index]];
      }
      index := index + 1;
    }
    fd.Append(str[start..]);
    assert str[start..index] == str[start..] && str[..index] == str;
  }

  method JsonWriteString(fd: StringBuffer, str: Option<string>)
    modifies fd
    ensures fd.text == old(fd.text) + QuotedString(str.GetOr(""))
  {
    fd.Append("\"");
    if str.Some? {
      JsonEscapeString(fd, str.value);
    }
    fd.Append("\"");
  }

  // ------------------------------------------------------------ values

  /** The JSON value a field is written as. */
  ghost function FieldJson(f: Field): Json {
    match f
    case NullField => Null
    case RawField(bytes) => String(bytes)
    case NumberField(bytes) => if IsNumber(bytes) then Number(bytes) else String(bytes)
    case BooleanField(b) => Boolean(b)
  }

  ghost function RowJsons(row: seq<Field>): seq<Json> {
    seq(|row|, i requires 0 <= i < |row| => FieldJson(row[i]))
  }

  method JsonWriteValue(fd: StringBuffer, field: Field)
    modifies fd
    ensures fd.text == old(fd.text) + Serialized(FieldJson(field))
  {
    if field.NullField? {
      fd.Append("null");
      return;
    }
    if field.NumberField? {
      var number := JsonIsNumber(field.bytes);
      if number {
        fd.Append(field.bytes);
        return;
      }
    }
    if field.BooleanField? {
      fd.Append(if field.b then "true" else "false");
      return;
    }
    JsonWriteString(fd, Some(field.bytes));
  }

  lemma {:induction false} ItemsAppended(items: seq<Json>, x: Json)
    ensures SerializedItems(items + [x]) ==
      SerializedItems(items) + (if items == [] then "" else ",") + Serialized(x)
  {
    hide Serialized;
    if items == [] {
      assert items + [x] == [x];
    } else {
      ItemsAppended(items[1..], x);
      assert (items + [x])[1..] == items[1..] + [x];
      if |items| == 1 {
        assert items[1..] == [];
      }
    }
  }

  lemma {:induction false} MembersAppended(members: seq<Member>, m: Member)
    ensures SerializedMembers(members + [m]) ==
      SerializedMembers(members) + (if members == [] then "" else ",") + SerializedMember(m)
  {
    hide SerializedMember;
    if members == [] {
      assert members + [m] == [m];
    } else {
      MembersAppended(members[1..], m);
      assert (members + [m])[1..] == members[1..] + [m];
      if |members| == 1 {
        assert members[1..] == [];
      }
    }
  }

  // ------------------------------------------------------------ the document

  function ColumnJson(name: string, columntype: string): Json {
    Object([Member("name", String(name)), Member("type", String(columntype))])
  }

  function ColumnJsons(names: seq<string>, types: seq<string>): seq<Json>
    requires |names| == |types|
  {
    seq(|names|, i requires 0 <= i < |names| => ColumnJson(names[i], types[i]))
  }

  ghost function RowArrays(rows: seq<seq<Field>>): seq<Json> {
    seq(|rows|, i requires 0 <= i < |rows| => Array(RowJsons(rows[i])))
  }

  /** The statistics of a result set: the rows affected, and the microseconds that it took, unless they
      aren't to be shown. */
  datatype Stats = Stats(affectedRows: int, elapsed: Option<nat>)

  /** A number as printf writes it, negative or not. */
  function Signed(n: int): string {
    if n < 0 then "-" + Decimal(-n) else Decimal(n)
  }

  /** Microseconds as seconds with six places. */
  function Seconds(microseconds: nat): string {
    Decimal(microseconds / 1000000) + "." + Timeouts.SixDigits(microseconds % 1000000)
  }

  /** The members at the end of a document, when the statistics are on. */
  function StatsMembers(stats: Option<Stats>, rowCount: nat, colCount: nat): seq<Member> {
    match stats
    case None => []
    case Some(s) => [Member("affectedrows", Number(Signed(s.affectedRows))),
                     Member("rowsreturned", Number(Decimal(rowCount))),
                     Member("fieldsreturned", Number(Decimal(rowCount * colCount)))] + ElapsedMember(s.elapsed)
  }

  function ElapsedMember(elapsed: Option<nat>): seq<Member> {
    match elapsed
    case None => []
    case Some(microseconds) => [Member("elapsed", Number(Seconds(microseconds)))]
  }

  ghost function Document(names: seq<string>, types: seq<string>, rows: seq<seq<Field>>,
                          stats: Option<Stats>): Json
    requires |names| == |types|
  {
    Object([Member("columns", Array(ColumnJsons(names, types))), Member("rows", Array(RowArrays(rows)))]
           + StatsMembers(stats, |rows|, |names|))
  }

  ghost function RowMembers(names: seq<string>, row: seq<Field>): seq<Member>
    requires |names| == |row|
  {
    seq(|names|, i requires 0 <= i < |names| => Member(names[i], FieldJson(row[i])))
  }

  function ColumnsLine(names: seq<string>, types: seq<string>): Json
    requires |names| == |types|
  {
    Object([Member("type", String("columns")), Member("columns", Array(ColumnJsons(names, types)))])
  }

  ghost function RowLine(names: seq<string>, row: seq<Field>): Json
    requires |names| == |row|
  {
    Object([Member("type", String("row")), Member("row", Object(RowMembers(names, row)))])
  }

  ghost function RowLines(names: seq<string>, rows: seq<seq<Field>>): seq<Json>
    requires IsTable(rows, |names|)
  {
    seq(|rows|, i requires 0 <= i < |rows| => RowLine(names, rows[i]))
  }

  /** The objects of a jsonl document, one a line. */
  ghost function Lines(names: seq<string>, types: seq<string>, rows: seq<seq<Field>>,
                       stats: Option<Stats>): seq<Json>
    requires |names| == |types| && IsTable(rows, |names|)
  {
    [ColumnsLine(names, types)] + RowLines(names, rows)
    + if stats.None? then [] else [StatsLine(stats, |rows|, |names|)]
  }

  function StatsLine(stats: Option<Stats>, rowCount: nat, colCount: nat): Json {
    Object([Member("type", String("stats"))] + StatsMembers(stats, rowCount, colCount))
  }

  function LinesText(lines: seq<Json>): string {
    if lines == [] then "" else Serialized(lines[0]) + "\n" + LinesText(lines[1..])
  }

  // ------------------------------------------------------------ text the writers spell out

  predicate IsPlain(s: string) {
    forall i :: 0 <= i < |s| ==> s[i] == '_' || IsAlphanumeric(s[i])
  }

  lemma {:induction false} PlainIsNotEscaped(s: string)
    requires IsPlain(s)
    ensures EscapedAll(s) == s
  {
    hide Escaped, IsAlphanumeric;
    if s != "" {
      PlainCharacter(s[0]);
      PlainIsNotEscaped(s[1..]);
      assert s == [s[0]] + s[1..];
    }
  }

  lemma PlainCharacter(c: char)
    requires c == '_' || IsAlphanumeric(c)
    ensures Escaped(c) == [c]
  {
  }

  lemma PlainQuoted(s: string)
    requires IsPlain(s)
    ensures QuotedString(s) == "\"" + s + "\""
  {
    PlainIsNotEscaped(s);
  }

  /** A member as a format string spells it. */
  function Named(name: string, value: string): string {
    "\"" + name + "\":" + value
  }

  lemma PlainMember(name: string, value: Json)
    requires IsPlain(name)
    ensures SerializedMember(Member(name, value)) == Named(name, Serialized(value))
  {
    hide Serialized, QuotedString;
    PlainQuoted(name);
  }

  /** Two members in front of any others. */
  lemma TwoMembers(a: Member, b: Member, more: seq<Member>)
    ensures SerializedMembers([a, b] + more) ==
      SerializedMember(a) + "," + SerializedMember(b)
      + (if more == [] then "" else "," + SerializedMembers(more))
  {
    hide SerializedMember;
    var all := [a, b] + more;
    assert all[1..] == [b] + more;
    assert ([b] + more)[1..] == more;
    if more == [] {
      assert [b] + more == [b];
    }
  }

  lemma OneMember(a: Member, more: seq<Member>)
    ensures SerializedMembers([a] + more) ==
      SerializedMember(a) + (if more == [] then "" else "," + SerializedMembers(more))
  {
    hide SerializedMember;
    assert ([a] + more)[1..] == more;
    if more == [] {
      assert [a] + more == [a];
    }
  }

  lemma ColumnText(name: string, columntype: string)
    ensures Serialized(ColumnJson(name, columntype)) ==
      "{\"name\":" + QuotedString(name) + ",\"type\":" + QuotedString(columntype) + "}"
  {
    var a, b := Member("name", String(name)), Member("type", String(columntype));
    PlainMember("name", a.value);
    PlainMember("type", b.value);
    hide QuotedString, SerializedMembers, SerializedMember;
    TwoMembers(a, b, []);
    assert [a, b] + [] == [a, b];
    ColumnRegrouped(QuotedString(name), QuotedString(columntype));
  }

  lemma ColumnRegrouped(name: string, columntype: string)
    ensures "{" + (Named("name", name) + "," + Named("type", columntype)) + "}"
         == "{\"name\":" + name + ",\"type\":" + columntype + "}"
  {
  }

  // ------------------------------------------------------------ the display methods

  /** One entry of the column list. */
  method JsonWriteColumn(out: StringBuffer, name: string, columntype: string)
    modifies out
    ensures out.text == old(out.text) + Serialized(ColumnJson(name, columntype))
  {
    ColumnText(name, columntype);
    hide QuotedString, Serialized;
    out.Append("{\"name\":");
    JsonWriteString(out, Some(name));
    out.Append(",\"type\":");
    JsonWriteString(out, Some(columntype));
    out.Append("}");
  }

  method JsonDisplayHeader(out: StringBuffer, cur: ClientCursor, jsonl: bool)
    requires |cur.names| == |cur.types|
    modifies out
    ensures out.text == old(out.text) + HeaderText(cur.names, cur.types, jsonl)
  {
    hide SerializedItems, Serialized, ColumnJson, ListOpen, ListClose;
    out.Append(ListOpen(jsonl));
    ghost var start := out.text;
    ghost var cols := ColumnJsons(cur.names, cur.types);
    ghost var list := "";
    var ci := 0;
    NothingSerialized();
    while ci < |cur.names|
      invariant ci <= |cur.names|
      invariant list == SerializedItems(cols[..ci])
      invariant out.text == start + list
    {
      assert cols[..ci + 1] == cols[..ci] + [cols[ci]];
      ItemsAppended(cols[..ci], cols[ci]);
      list := list + (if ci > 0 then "," else "") + Serialized(cols[ci]);
      if ci > 0 {
        out.Append(",");
      }
      JsonWriteColumn(out, cur.names[ci], cur.types[ci]);
      ci := ci + 1;
    }
    assert cols[..ci] == cols;
    out.Append(ListClose(jsonl));
  }

  function ListOpen(jsonl: bool): string {
    if jsonl then "{\"type\":\"columns\",\"columns\":[" else "{\"columns\":["
  }

  function ListClose(jsonl: bool): string {
    if jsonl then "]}\n" else "],\"rows\":["
  }

  function HeaderText(names: seq<string>, types: seq<string>, jsonl: bool): string
    requires |names| == |types|
  {
    ListOpen(jsonl) + SerializedItems(ColumnJsons(names, types)) + ListClose(jsonl)
  }

  lemma NothingSerialized()
    ensures SerializedItems([]) == "" && SerializedMembers([]) == ""
  {
  }
}
