/** The csv writer of src/cmdline/sqlrsh.cpp, and a reader following section 2 of RFC 4180 that gets
    every field back, a null apart from an empty string. */
module CsvDisplay {
  import opened Characters
  import opened ResultCursor

  // ------------------------------------------------------------ what is written

  predicate BreaksCsv(c: char) {
    c == '"' || c == ',' || c == '\n' || c == '\r' || c == '\t' || c == NUL
  }

  predicate HasBreak(s: string) {
    exists i :: 0 <= i < |s| && BreaksCsv(s[i])
  }

  predicate NeedsQuotes(s: string, isNumber: string -> bool) {
    HasBreak(s) || !isNumber(s) || |s| >= 12
  }

  function CsvField(f: Option<string>, isNumber: string -> bool): string {
    match f
    case None => ""
    case Some(s) => if NeedsQuotes(s, isNumber) then "\"" + Doubled(s, '"') + "\"" else Doubled(s, '"')
  }

  /** The fields of a record with commas between them. */
  function CsvRecord(fields: seq<Option<string>>, isNumber: string -> bool): string {
    if |fields| == 0 then ""
    else if |fields| == 1 then CsvField(fields[0], isNumber)
    else CsvField(fields[0], isNumber) + "," + CsvRecord(fields[1..], isNumber)
  }

  /** Records, each ended by a newline. */
  function CsvRecords(records: seq<seq<Option<string>>>, isNumber: string -> bool): string {
    if records == [] then "" else CsvRecord(records[0], isNumber) + "\n" + CsvRecords(records[1..], isNumber)
  }

  function Names(names: seq<string>): seq<Option<string>> {
    seq(|names|, i requires 0 <= i < |names| => Some(names[i]))
  }

  lemma NothingDoubled()
    ensures Doubled("", '"') == ""
  {
  }

  lemma DoubledFirst(c: char, s: string)
    ensures Doubled([c] + s, '"') == (if c == '"' then "\"\"" else [c]) + Doubled(s, '"')
  {
    assert ([c] + s)[1..] == s;
  }

  lemma {:induction false} DoubledAppends(s: string, t: string)
    ensures Doubled(s + t, '"') == Doubled(s, '"') + Doubled(t, '"')
  {
    NothingDoubled();
    hide Doubled;
    if s == "" {
      assert s + t == t;
    } else {
      DoubledFirst(s[0], s[1..]);
      DoubledFirst(s[0], s[1..] + t);
      DoubledAppends(s[1..], t);
      assert s == [s[0]] + s[1..] && s + t == [s[0]] + (s[1..] + t);
    }
  }

  lemma DoubledSnoc(s: string, c: char)
    ensures Doubled(s + [c], '"') == Doubled(s, '"') + if c == '"' then "\"\"" else [c]
  {
    NothingDoubled();
    hide Doubled;
    DoubledAppends(s, [c]);
    DoubledFirst(c, "");
    assert [c] + "" == [c] && "\"\"" + "" == "\"\"";
  }

  lemma {:induction false} RecordAppended(fields: seq<Option<string>>, f: Option<string>, isNumber: string -> bool)
    ensures CsvRecord(fields + [f], isNumber) ==
      CsvRecord(fields, isNumber) + (if fields == [] then "" else ",") + CsvField(f, isNumber)
  {
    hide CsvField;
    if fields == [] {
      assert fields + [f] == [f];
    } else {
      RecordAppended(fields[1..], f, isNumber);
      assert (fields + [f])[1..] == fields[1..] + [f];
      if |fields| == 1 {
        assert fields[1..] == [];
      }
    }
  }

  lemma {:induction false} RecordsAppend(a: seq<seq<Option<string>>>, b: seq<seq<Option<string>>>, isNumber: string -> bool)
    ensures CsvRecords(a + b, isNumber) == CsvRecords(a, isNumber) + CsvRecords(b, isNumber)
  {
    hide CsvRecord;
    if a == [] {
      assert a + b == b;
    } else {
      RecordsAppend(a[1..], b, isNumber);
      assert (a + b)[1..] == a[1..] + b;
    }
  }

  lemma SingleRecord(r: seq<Option<string>>, isNumber: string -> bool)
    ensures CsvRecords([r], isNumber) == CsvRecord(r, isNumber) + "\n"
  {
    hide CsvRecord;
    assert CsvRecords([r][1..], isNumber) == "";
  }

  // ------------------------------------------------------------ the writers

  method CsvFieldNeedsQuotes(field: string, isNumber: string -> bool) returns (r: bool)
    ensures r <==> NeedsQuotes(field, isNumber)
  {
    for index := 0 to |field|
      invariant forall i :: 0 <= i < index ==> !BreaksCsv(field[i])
    {
      if BreaksCsv(field[index]) {
        return true;
      }
    }
    return !isNumber(field) || |field| >= 12;
  }

  /** Runs of characters are written whole, each up to and including a double quote, which is
      then written once more. */
  method CsvEscapeField(out: StringBuffer, field: string)
    modifies out
    ensures out.text == old(out.text) + Doubled(field, '"')
  {
    hide Doubled;
    NothingDoubled();
    var start := 0;
    for index := 0 to |field|
      invariant start <= index
      invariant out.text + field[start..index] == old(out.text) + Doubled(field[..index], '"')
    {
      assert field[..index + 1] == field[..index] + [field[index]];
      DoubledSnoc(field[..index], field[index]);
      assert field[start..index + 1] == field[start..index] + [field[index]];
      if field[index] == '"' {
        ghost var before := out.text + field[start..index];
        out.Append(field[start..index + 1]);
        out.Append("\"");
        assert out.text == before + "\"\"";
        start := index + 1;
        assert out.text + field[start..index + 1] == out.text;
      } else {
        assert out.text + field[start..index + 1] == (out.text + field[start..index]) + [field[index]];
      }
    }
    out.Append(field[start..]);
    assert field[..|field|] == field && field[start..|field|] == field[start..];
  }

  method CsvWriteField(out: StringBuffer, field: Option<string>, isNumber: string -> bool)
    modifies out
    ensures out.text == old(out.text) + CsvField(field, isNumber)
  {
    if field.None? {
      return;
    }
    hide Doubled, NeedsQuotes;
    var quote := CsvFieldNeedsQuotes(field.value, isNumber);
    if quote {
      out.Append("\"");
    }
    CsvEscapeField(out, field.value);
    if quote {
      out.Append("\"");
    }
  }

  method CsvDisplayHeader(out: StringBuffer, cur: ClientCursor, isNumber: string -> bool)
    modifies out
    ensures out.text == old(out.text) +
      if cur.names == [] then "" else CsvRecord(Names(cur.names), isNumber) + "\n"
  {
    hide CsvField;
    if cur.names == [] {
      return;
    }
    ghost var all := Names(cur.names);
    ghost var written := "";
    for ci := 0 to |cur.names|
      invariant written == CsvRecord(all[..ci], isNumber)
      invariant out.text == old(out.text) + written
    {
      assert all[..ci + 1] == all[..ci] + [all[ci]];
      RecordAppended(all[..ci], all[ci], isNumber);
      written := written + (if ci > 0 then "," else "") + CsvField(all[ci], isNumber);
      if ci > 0 {
        out.Append(",");
      }
      CsvWriteField(out, Some(cur.names[ci]), isNumber);
    }
    assert all[..|cur.names|] == all;
    out.Append("\n");
  }

  lemma NoFields(isNumber: string -> bool)
    ensures CsvRecord([], isNumber) == ""
  {
  }

  /** One row without its newline, or the discovery that there are no more. */
  method CsvDisplayRow(cur: ClientCursor, out: StringBuffer, row: nat, isNumber: string -> bool) returns (done: bool)
    requires cur.Valid() && |cur.names| > 0 && cur.firstRowIndex <= row <= |cur.rows|
    modifies cur, out
    ensures cur.Valid() && cur.firstRowIndex <= row
    ensures done <==> row == |cur.rows|
    ensures done ==> out.text == old(out.text)
    ensures !done ==> out.text == old(out.text) + CsvRecord(RowBytes(cur.rows[row]), isNumber)
  {
    hide CsvField, CsvRecord;
    done := false;
    ghost var written := "";
    NoFields(isNumber);
    var col := 0;
    while col < |cur.names|
      invariant col <= |cur.names| && cur.Valid() && cur.firstRowIndex <= row
      invariant !done
      invariant col > 0 ==> row < |cur.rows|
      invariant row < |cur.rows| ==> written == CsvRecord(RowBytes(cur.rows[row])[..col], isNumber)
      invariant row == |cur.rows| ==> written == ""
      invariant out.text == old(out.text) + written
    {
      if col > 0 {
        out.Append(",");
      }
      var field := cur.GetField(row, col);
      if col == 0 && field.NullField? && cur.endOfResultSet && row == cur.rowCount {
        done := true;
        break;
      }
      ghost var all := RowBytes(cur.rows[row]);
      assert all[..col + 1] == all[..col] + [all[col]];
      RecordAppended(all[..col], all[col], isNumber);
      written := written + (if col > 0 then "," else "") + CsvField(all[col], isNumber);
      CsvWriteField(out, FieldBytes(field), isNumber);
      col := col + 1;
    }
    if !done {
      assert RowBytes(cur.rows[row])[..col] == RowBytes(cur.rows[row]);
    }
  }

  method CsvDisplayResultSet(cur: ClientCursor, out: StringBuffer, isNumber: string -> bool)
    requires cur.Valid() && cur.firstRowIndex == 0
    modifies cur, out
    ensures cur.Valid()
    ensures out.text == old(out.text) + CsvRecords(TableBytes(cur.rows), isNumber)
  {
    hide CsvRecord, CsvRecords;
    ghost var all := TableBytes(cur.rows);
    NoRecords(isNumber);
    if |cur.names| == 0 {
      assert all == [];
      return;
    }
    ghost var written := "";
    var done := false;
    var row := 0;
    while !done
      invariant cur.Valid() && cur.firstRowIndex <= row
      invariant !done ==> row <= |cur.rows|
      invariant done ==> written == CsvRecords(all, isNumber)
      invariant row == 0 ==> written == ""
      invariant !done && row > 0 ==> written + "\n" == CsvRecords(all[..row], isNumber)
      invariant out.text == old(out.text) + written
      decreases !done, |cur.rows| - row
    {
      if row > 0 {
        out.Append("\n");
        written := written + "\n";
      }
      assert row == 0 ==> all[..row] == [];
      assert written == CsvRecords(all[..row], isNumber);
      done := CsvDisplayRow(cur, out, row, isNumber);
      if done {
        assert all[..row] == all;
      } else {
        ghost var record := CsvRecord(all[row], isNumber);
        assert all[..row + 1] == all[..row] + [all[row]];
        RecordsAppend(all[..row], [all[row]], isNumber);
        SingleRecord(all[row], isNumber);
        assert written + record + "\n" == written + (record + "\n");
        written := written + record;
      }
      row := row + 1;
    }
  }

  lemma NoRecords(isNumber: string -> bool)
    ensures CsvRecords([], isNumber) == ""
  {
  }

  /** The header and the rows, as every command that displays a result set writes them. */
  method CsvDisplayCurrentResultSet(cur: ClientCursor, out: StringBuffer, isNumber: string -> bool)
    requires cur.Valid() && cur.firstRowIndex == 0
    modifies cur, out
    ensures out.text == old(out.text) + CsvText(cur.names, TableBytes(cur.rows), isNumber)
  {
    hide CsvRecord;
    CsvDisplayHeader(out, cur, isNumber);
    CsvDisplayResultSet(cur, out, isNumber);
    if |cur.names| == 0 {
      assert TableBytes(cur.rows) == [];
    } else {
      assert ([Names(cur.names)] + TableBytes(cur.rows))[1..] == TableBytes(cur.rows);
    }
  }

  function CsvText(names: seq<string>, rows: seq<seq<Option<string>>>, isNumber: string -> bool): string {
    if names == [] then "" else CsvRecords([Names(names)] + rows, isNumber)
  }

  // ------------------------------------------------------------ the reader

  datatype ReadField = BareField(text: string) | QuotedField(text: string)

  /** What a field stands for: an unquoted empty field is a null. */
  function Meaning(f: ReadField): Option<string> {
    if f == BareField("") then None else Some(f.text)
  }

  function Meanings(fields: seq<ReadField>): seq<Option<string>> {
    seq(|fields|, i requires 0 <= i < |fields| => Meaning(fields[i]))
  }

  /** The rest of an escaped field after its opening quote. */
  function ReadQuoted(s: string): (r: Option<(string, string)>)
    ensures r.Some? ==> |r.value.1| < |s|
  {
    if s == "" then None
    else if s[0] != '"' then
      match ReadQuoted(s[1..])
      case None => None
      case Some((t, rest)) => Some(([s[0]] + t, rest))
    else if |s| > 1 && s[1] == '"' then
      match ReadQuoted(s[2..])
      case None => None
      case Some((t, rest)) => Some(("\"" + t, rest))
    else Some(("", s[1..]))
  }

  predicate IsTextData(c: char) {
    c != ',' && c != '"' && c != '\n' && c != '\r'
  }

  /** The longest run of text data. */
  function BareRun(s: string): (r: string)
    ensures r <= s
  {
    if s == "" || !IsTextData(s[0]) then "" else [s[0]] + BareRun(s[1..])
  }

  function ReadOneField(s: string): (r: Option<(ReadField, string)>)
    ensures r.Some? ==> |r.value.1| <= |s|
    ensures r.Some? && s != "" && IsTextData(s[0]) ==> |r.value.1| < |s|
  {
    if s != "" && s[0] == '"' then
      match ReadQuoted(s[1..])
      case None => None
      case Some((t, rest)) => Some((QuotedField(t), rest))
    else
      var t := BareRun(s);
      Some((BareField(t), s[|t|..]))
  }

  /** One record and what follows its line break; the last record may go without one. */
  function ReadRecord(s: string): (r: Option<(seq<ReadField>, string)>)
    ensures r.Some? ==> |r.value.1| <= |s| && (s != "" ==> |r.value.1| < |s|)
    decreases |s|
  {
    match ReadOneField(s)
    case None => None
    case Some((f, rest)) =>
      if rest == "" then Some(([f], ""))
      else if rest[0] == '\n' then Some(([f], rest[1..]))
      else if rest[0] == '\r' && |rest| > 1 && rest[1] == '\n' then Some(([f], rest[2..]))
      else if rest[0] == ',' then
        match ReadRecord(rest[1..])
        case None => None
        case Some((fs, rest')) => Some(([f] + fs, rest'))
      else None
  }

  function ReadRecords(s: string): (r: Option<seq<seq<ReadField>>>)
    decreases |s|
  {
    if s == "" then Some([])
    else
      match ReadRecord(s)
      case None => None
      case Some((fs, rest)) =>
        match ReadRecords(rest)
        case None => None
        case Some(more) => Some([fs] + more)
  }

  /** The values of all the records of a text. */
  function ReadValues(s: string): Option<seq<seq<Option<string>>>> {
    match ReadRecords(s)
    case None => None
    case Some(rs) => Some(AllMeanings(rs))
  }

  function AllMeanings(records: seq<seq<ReadField>>): seq<seq<Option<string>>> {
    if records == [] then [] else [Meanings(records[0])] + AllMeanings(records[1..])
  }

  // ------------------------------------------------------------ the reader inverts the writer

  predicate EndsField(k: string) {
    k != "" && (k[0] == ',' || k[0] == '\n')
  }

  lemma QuoteEndsField(k: string)
    requires EndsField(k)
    ensures ReadQuoted("\"" + k) == Some(("", k))
  {
    assert ("\"" + k)[1..] == k;
  }

  lemma NextIsRead(c: char, s: string, t: string, k: string)
    requires ReadQuoted(s) == Some((t, k))
    ensures ReadQuoted((if c == '"' then "\"\"" else [c]) + s) == Some(([c] + t, k))
  {
    if c == '"' {
      assert ("\"\"" + s)[2..] == s;
    } else {
      assert ([c] + s)[1..] == s;
    }
  }

  lemma {:induction false} QuotedReadsBack(s: string, k: string)
    requires EndsField(k)
    ensures ReadQuoted(Doubled(s, '"') + "\"" + k) == Some((s, k))
  {
    NothingDoubled();
    hide Doubled, ReadQuoted;
    if s == "" {
      QuoteEndsField(k);
      assert "" + "\"" + k == "\"" + k;
    } else {
      QuotedReadsBack(s[1..], k);
      var rest := Doubled(s[1..], '"') + "\"" + k;
      var d := if s[0] == '"' then "\"\"" else [s[0]];
      NextIsRead(s[0], rest, s[1..], k);
      DoubledFirst(s[0], s[1..]);
      assert s == [s[0]] + s[1..];
      assert d + Doubled(s[1..], '"') + "\"" + k == d + rest;
    }
  }

  lemma NoBreakLater(s: string)
    requires s != "" && !HasBreak(s)
    ensures !BreaksCsv(s[0]) && !HasBreak(s[1..])
  {
    assert !BreaksCsv(s[0]);
    hide BreaksCsv;
    assert forall i :: 0 <= i < |s[1..]| ==> s[1..][i] == s[i + 1];
  }

  lemma {:induction false} NothingToDouble(s: string)
    requires !HasBreak(s)
    ensures Doubled(s, '"') == s
  {
    NothingDoubled();
    if s != "" {
      NoBreakLater(s);
      hide Doubled, HasBreak;
      NothingToDouble(s[1..]);
      DoubledFirst(s[0], s[1..]);
      assert s == [s[0]] + s[1..];
    }
  }

  lemma BareFirst(c: char, s: string)
    requires IsTextData(c)
    ensures BareRun([c] + s) == [c] + BareRun(s)
  {
    assert ([c] + s)[1..] == s;
  }

  lemma {:induction false} BareReadsBack(s: string, k: string)
    requires !HasBreak(s) && EndsField(k)
    ensures BareRun(s + k) == s
  {
    if s == "" {
      assert s + k == k;
    } else {
      NoBreakLater(s);
      hide BareRun, HasBreak;
      BareReadsBack(s[1..], k);
      BareFirst(s[0], s[1..] + k);
      assert s == [s[0]] + s[1..] && s + k == [s[0]] + (s[1..] + k);
    }
  }

  /** The reader's field for a value. */
  function FieldFor(f: Option<string>, isNumber: string -> bool): ReadField {
    match f
    case None => BareField("")
    case Some(s) => if NeedsQuotes(s, isNumber) then QuotedField(s) else BareField(s)
  }

  /** What is read back for a field: itself, but for an empty string that is written without quotes. */
  function Recovered(f: Option<string>, isNumber: string -> bool): Option<string> {
    if f == Some("") && isNumber("") then None else f
  }

  lemma FieldForMeans(f: Option<string>, isNumber: string -> bool)
    ensures Meaning(FieldFor(f, isNumber)) == Recovered(f, isNumber)
  {
  }

  lemma FieldReadsBack(f: Option<string>, isNumber: string -> bool, k: string)
    requires EndsField(k)
    ensures ReadOneField(CsvField(f, isNumber) + k) == Some((FieldFor(f, isNumber), k))
  {
    match f
    case None =>
      assert "" + k == k && BareRun(k) == "" && k[0..] == k;
    case Some(s) =>
      if NeedsQuotes(s, isNumber) {
        QuotedFieldReadsBack(s, k);
      } else {
        BareFieldReadsBack(s, k);
      }
  }

  lemma QuotedFieldReadsBack(s: string, k: string)
    requires EndsField(k)
    ensures ReadOneField("\"" + Doubled(s, '"') + "\"" + k) == Some((QuotedField(s), k))
  {
    hide Doubled, ReadQuoted, BareRun;
    QuotedReadsBack(s, k);
    assert ("\"" + Doubled(s, '"') + "\"" + k)[1..] == Doubled(s, '"') + "\"" + k;
  }

  lemma BareFieldReadsBack(s: string, k: string)
    requires EndsField(k) && !HasBreak(s)
    ensures ReadOneField(Doubled(s, '"') + k) == Some((BareField(s), k))
  {
    hide Doubled, ReadQuoted, BareRun;
    NothingToDouble(s);
    BareReadsBack(s, k);
    assert (s + k)[|s|..] == k;
    assert s != "" ==> !BreaksCsv(s[0]) && (s + k)[0] == s[0];
  }

  function FieldsFor(fields: seq<Option<string>>, isNumber: string -> bool): seq<ReadField> {
    seq(|fields|, i requires 0 <= i < |fields| => FieldFor(fields[i], isNumber))
  }

  lemma {:induction false} RecordReadsBack(fields: seq<Option<string>>, isNumber: string -> bool, k: string)
    requires |fields| > 0
    ensures ReadRecord(CsvRecord(fields, isNumber) + "\n" + k) == Some((FieldsFor(fields, isNumber), k))
  {
    hide CsvField, FieldFor, ReadOneField;
    var text := CsvRecord(fields, isNumber) + "\n" + k;
    if |fields| == 1 {
      FieldReadsBack(fields[0], isNumber, "\n" + k);
      assert text == CsvField(fields[0], isNumber) + ("\n" + k);
      assert ("\n" + k)[1..] == k;
      assert FieldsFor(fields, isNumber) == [FieldFor(fields[0], isNumber)];
    } else {
      var more := CsvRecord(fields[1..], isNumber) + "\n" + k;
      FieldReadsBack(fields[0], isNumber, "," + more);
      RecordReadsBack(fields[1..], isNumber, k);
      assert text == CsvField(fields[0], isNumber) + ("," + more);
      assert ("," + more)[1..] == more && more != "";
      assert FieldsFor(fields, isNumber) == [FieldFor(fields[0], isNumber)] + FieldsFor(fields[1..], isNumber);
    }
  }

  function RecoveredFields(fields: seq<Option<string>>, isNumber: string -> bool): seq<Option<string>> {
    seq(|fields|, i requires 0 <= i < |fields| => Recovered(fields[i], isNumber))
  }

  function RecoveredRecords(records: seq<seq<Option<string>>>, isNumber: string -> bool): seq<seq<Option<string>>> {
    seq(|records|, i requires 0 <= i < |records| => RecoveredFields(records[i], isNumber))
  }

  lemma FieldsForMean(fields: seq<Option<string>>, isNumber: string -> bool)
    ensures Meanings(FieldsFor(fields, isNumber)) == RecoveredFields(fields, isNumber)
  {
    hide FieldFor, Meaning, Recovered;
    forall k | 0 <= k < |fields|
      ensures Meaning(FieldFor(fields[k], isNumber)) == Recovered(fields[k], isNumber)
    {
      FieldForMeans(fields[k], isNumber);
    }
  }

  function AllFieldsFor(records: seq<seq<Option<string>>>, isNumber: string -> bool): seq<seq<ReadField>> {
    seq(|records|, i requires 0 <= i < |records| => FieldsFor(records[i], isNumber))
  }

  lemma {:induction false} RecordsReadBack(records: seq<seq<Option<string>>>, isNumber: string -> bool)
    requires forall i :: 0 <= i < |records| ==> |records[i]| > 0
    ensures ReadRecords(CsvRecords(records, isNumber)) == Some(AllFieldsFor(records, isNumber))
  {
    hide CsvRecord, ReadRecord, FieldsFor;
    if records != [] {
      RecordsReadBack(records[1..], isNumber);
      RecordReadsBack(records[0], isNumber, CsvRecords(records[1..], isNumber));
      assert AllFieldsFor(records, isNumber)
          == [FieldsFor(records[0], isNumber)] + AllFieldsFor(records[1..], isNumber);
    }
  }

  lemma {:induction false} AllFieldsForMean(records: seq<seq<Option<string>>>, isNumber: string -> bool)
    ensures AllMeanings(AllFieldsFor(records, isNumber)) == RecoveredRecords(records, isNumber)
  {
    hide FieldsFor, RecoveredFields, Meanings;
    if records != [] {
      AllFieldsForMean(records[1..], isNumber);
      FieldsForMean(records[0], isNumber);
      assert AllFieldsFor(records, isNumber)[1..] == AllFieldsFor(records[1..], isNumber);
      assert RecoveredRecords(records, isNumber)
          == [RecoveredFields(records[0], isNumber)] + RecoveredRecords(records[1..], isNumber);
    }
  }

  /** It may go without quotes: a number of under 12 characters, none of which could break the record. */
  predicate MayBeBare(s: string, isNumber: string -> bool) {
    && isNumber(s) && |s| < 12
    && '"' !in s && ',' !in s && '\n' !in s && '\r' !in s && '\t' !in s && '\0' !in s
  }

  lemma FieldIsBareIff(f: Option<string>, isNumber: string -> bool)
    ensures FieldFor(f, isNumber).BareField? <==> f.None? || MayBeBare(f.value, isNumber)
  {
    if f.Some? {
      var s := f.value;
      if HasBreak(s) {
        var i :| 0 <= i < |s| && BreaksCsv(s[i]);
        assert s[i] in s;
      } else {
        assert forall c :: c in s ==> !BreaksCsv(c);
      }
    }
  }

  /** Of every record that is read, the fields without quotes are exactly the nulls and such numbers. */
  lemma BareIff(names: seq<string>, rows: seq<seq<Option<string>>>, isNumber: string -> bool)
    requires IsTable(names, rows)
    ensures
      var read, table := ReadRecords(CsvText(names, rows, isNumber)), Table(names, rows);
      && read.Some? && |read.value| == |table|
      && forall i :: 0 <= i < |table| ==>
           && |read.value[i]| == |table[i]|
           && forall k :: 0 <= k < |table[i]| ==>
                (read.value[i][k].BareField? <==> table[i][k].None? || MayBeBare(table[i][k].value, isNumber))
  {
    var table := Table(names, rows);
    if names == [] {
      assert ReadRecords("") == Some([]);
    } else {
      RecordsReadBack(table, isNumber);
    }
    hide CsvRecords, ReadRecords, FieldFor, MayBeBare;
    forall i, k | 0 <= i < |table| && 0 <= k < |table[i]|
      ensures FieldFor(table[i][k], isNumber).BareField? <==> table[i][k].None? || MayBeBare(table[i][k].value, isNumber)
    {
      FieldIsBareIff(table[i][k], isNumber);
    }
  }

  predicate HasEmptyString(records: seq<seq<Option<string>>>) {
    exists i :: 0 <= i < |records| && Some("") in records[i]
  }

  lemma FieldsRecoveredIff(fields: seq<Option<string>>, isNumber: string -> bool)
    ensures RecoveredFields(fields, isNumber) == fields <==> !isNumber("") || Some("") !in fields
  {
    var r := RecoveredFields(fields, isNumber);
    if isNumber("") && Some("") in fields {
      var k :| 0 <= k < |fields| && fields[k] == Some("");
      assert r[k] == None;
    }
  }

  lemma RecoveredIff(records: seq<seq<Option<string>>>, isNumber: string -> bool)
    ensures RecoveredRecords(records, isNumber) == records <==> !isNumber("") || !HasEmptyString(records)
  {
    hide RecoveredFields;
    var r := RecoveredRecords(records, isNumber);
    forall i | 0 <= i < |records|
      ensures r[i] == records[i] <==> !isNumber("") || Some("") !in records[i]
    {
      FieldsRecoveredIff(records[i], isNumber);
    }
  }

  /** The column names, if there are any, and the rows. */
  function Table(names: seq<string>, rows: seq<seq<Option<string>>>): seq<seq<Option<string>>> {
    if names == [] then [] else [Names(names)] + rows
  }

  predicate IsTable(names: seq<string>, rows: seq<seq<Option<string>>>) {
    (names == [] ==> rows == []) && forall i :: 0 <= i < |rows| ==> |rows[i]| == |names|
  }

  /** For every result set and number test, the reader recovers the column names and every row and field,
      nulls apart from strings, iff the test rejects the empty string or no field is one. */
  lemma CsvReadsBackIff(names: seq<string>, rows: seq<seq<Option<string>>>, isNumber: string -> bool)
    requires IsTable(names, rows)
    ensures ReadValues(CsvText(names, rows, isNumber)) == Some(Table(names, rows))
       <==> !isNumber("") || !HasEmptyString(Table(names, rows))
  {
    if names == [] {
      assert ReadRecords("") == Some([]);
    } else {
      RecordsReadBack(Table(names, rows), isNumber);
      AllFieldsForMean(Table(names, rows), isNumber);
      RecoveredIff(Table(names, rows), isNumber);
      hide CsvRecords, ReadRecords, RecoveredRecords, HasEmptyString, AllMeanings, AllFieldsFor;
    }
  }

  /** csv result sets read back: for every number test that rejects the empty string, the reader
      recovers the column names and every row and field exactly, nulls included; with no columns, it
      finds no record. */
  lemma CsvReadsBack(names: seq<string>, rows: seq<seq<Option<string>>>, isNumber: string -> bool)
    requires !isNumber("") && IsTable(names, rows)
    ensures ReadValues(CsvText(names, rows, isNumber)) == Some(Table(names, rows))
  {
    CsvReadsBackIff(names, rows, isNumber);
    hide CsvText, ReadValues, Table, IsTable;
  }

  /** And for no other test does that hold of every result set. */
  lemma EmptyStringNeedsTheTest(isNumber: string -> bool)
    ensures (forall names, rows | IsTable(names, rows) ::
               ReadValues(CsvText(names, rows, isNumber)) == Some(Table(names, rows)))
       <==> !isNumber("")
  {
    forall names, rows | !isNumber("") && IsTable(names, rows)
      ensures ReadValues(CsvText(names, rows, isNumber)) == Some(Table(names, rows))
    {
      CsvReadsBack(names, rows, isNumber);
    }
    if isNumber("") {
      var names, rows := ["a"], [[Some("")]];
      assert IsTable(names, rows) && Table(names, rows)[1] == [Some("")];
      CsvReadsBackIff(names, rows, isNumber);
    }
    hide CsvText, ReadValues;
  }
}
