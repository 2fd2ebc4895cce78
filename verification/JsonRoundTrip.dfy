/** The reader inverts the compact serialization of every JSON value. */
module JsonRoundTrip {
  import opened Characters
  import opened JsonText

  lemma NothingEscaped()
    ensures EscapedAll("") == ""
  {
  }

  lemma EscapedFirst(c: char, s: string)
    ensures EscapedAll([c] + s) == Escaped(c) + EscapedAll(s)
  {
    hide Escaped;
    assert ([c] + s)[1..] == s;
  }

  lemma LetterReads(letter: char, c: char, rest: string, cs: string, rest': string)
    requires ShortEscape(letter) == Some(c) && ReadString(rest) == Got(cs, rest')
    ensures ReadString(['\\', letter] + rest) == Got([c] + cs, rest')
  {
    assert letter != 'u';
    hide ShortEscape;
    assert (['\\', letter] + rest)[2..] == rest;
  }

  /** The bytes below a space are written as u00 and two digits. */
  lemma ControlIsRead(c: char, rest: string)
    requires c < ' '
    ensures ReadUnicodeEscape("00" + [HexDigit(c as nat / 16), HexDigit(c as nat % 16)] + rest) == Got([c], rest)
  {
    var s := "00" + [HexDigit(c as nat / 16), HexDigit(c as nat % 16)] + rest;
    assert Hex4(s) == Some(c as nat);
    hide Hex4;
    assert s[4..] == rest;
  }

  lemma ControlReads(c: char, rest: string, cs: string, rest': string)
    requires c < ' ' && ReadString(rest) == Got(cs, rest')
    ensures ReadString("\\u00" + [HexDigit(c as nat / 16), HexDigit(c as nat % 16)] + rest) == Got([c] + cs, rest')
  {
    var digits := [HexDigit(c as nat / 16), HexDigit(c as nat % 16)];
    ControlIsRead(c, rest);
    hide ReadUnicodeEscape, HexDigit, ShortEscape;
    assert ("\\u00" + digits + rest)[2..] == "00" + digits + rest;
  }

  lemma PlainReads(c: char, rest: string, cs: string, rest': string)
    requires c >= ' ' && c != '"' && c != '\\' && ReadString(rest) == Got(cs, rest')
    ensures ReadString([c] + rest) == Got([c] + cs, rest')
  {
    assert ([c] + rest)[1..] == rest;
  }

  lemma EscapedReadsBack(c: char, rest: string, cs: string, rest': string)
    requires ReadString(rest) == Got(cs, rest')
    ensures ReadString(Escaped(c) + rest) == Got([c] + cs, rest')
  {
    hide ReadString;
    match c
    case '"' => LetterReads('"', c, rest, cs, rest');
    case '\\' => LetterReads('\\', c, rest, cs, rest');
    case '\U{08}' => LetterReads('b', c, rest, cs, rest');
    case '\U{0C}' => LetterReads('f', c, rest, cs, rest');
    case '\n' => LetterReads('n', c, rest, cs, rest');
    case '\r' => LetterReads('r', c, rest, cs, rest');
    case '\t' => LetterReads('t', c, rest, cs, rest');
    case _ =>
      if c < ' ' {
        ControlReads(c, rest, cs, rest');
      } else {
        PlainReads(c, rest, cs, rest');
      }
  }

  lemma QuoteEndsString(k: string)
    ensures ReadString("\"" + k) == Got("", k)
  {
    assert ("\"" + k)[1..] == k;
  }

  lemma {:induction false} StringReadsBack(s: string, k: string)
    ensures ReadString(EscapedAll(s) + "\"" + k) == Got(s, k)
  {
    NothingEscaped();
    hide EscapedAll, Escaped, ReadString;
    if s == "" {
      QuoteEndsString(k);
      assert "" + "\"" + k == "\"" + k;
    } else {
      var rest := EscapedAll(s[1..]) + "\"" + k;
      StringReadsBack(s[1..], k);
      EscapedReadsBack(s[0], rest, s[1..], k);
      EscapedFirst(s[0], s[1..]);
      assert s == [s[0]] + s[1..];
      assert Escaped(s[0]) + EscapedAll(s[1..]) + "\"" + k == Escaped(s[0]) + rest;
    }
  }

  /** What may follow a value so that a number in front of it is over. */
  predicate Ends(k: string) {
    k == "" || !IsNumberChar(k[0])
  }

  lemma NumberChars(s: string)
    requires IsNumber(s)
    ensures s != "" && (s[0] == '-' || IsDigit(s[0]))
    ensures forall i :: 0 <= i < |s| ==> IsNumberChar(s[i])
  {
    var minus, whole, frac, exp :| IsNumberSplit(s, minus, whole, frac, exp);
    assert s[0] == (if minus == "-" then '-' else whole[0]);
    ExpChars(exp);
    FracChars(frac);
    forall i | 0 <= i < |s|
      ensures IsNumberChar(s[i])
    {
      var m, w, f := |minus|, |minus| + |whole|, |minus| + |whole| + |frac|;
      if m <= i < w {
        assert s[i] == whole[i - m];
      } else if w <= i < f {
        assert s[i] == frac[i - w];
      } else if f <= i {
        assert s[i] == exp[i - f];
      }
    }
  }

  lemma FracChars(s: string)
    requires IsFrac(s)
    ensures forall i :: 0 <= i < |s| ==> IsNumberChar(s[i])
  {
    forall i | 0 < i < |s|
      ensures IsNumberChar(s[i])
    {
      assert s[i] == s[1..][i - 1];
    }
  }

  lemma ExpChars(s: string)
    requires IsExp(s)
    ensures forall i :: 0 <= i < |s| ==> IsNumberChar(s[i])
  {
    forall i | 0 < i < |s|
      ensures IsNumberChar(s[i])
    {
      if IsDigits(s[1..]) {
        assert s[i] == s[1..][i - 1];
      } else if i > 1 {
        assert s[i] == s[2..][i - 2];
      }
    }
  }

  lemma RunFirst(c: char, s: string)
    requires IsNumberChar(c)
    ensures NumberRun([c] + s) == [c] + NumberRun(s)
  {
    assert ([c] + s)[1..] == s;
  }

  lemma {:induction false} RunStops(s: string, k: string)
    requires (forall i :: 0 <= i < |s| ==> IsNumberChar(s[i])) && Ends(k)
    ensures NumberRun(s + k) == s
  {
    if s == "" {
      assert s + k == k;
    } else {
      hide NumberRun, IsNumberChar;
      RunStops(s[1..], k);
      RunFirst(s[0], s[1..] + k);
      assert s == [s[0]] + s[1..] && s + k == [s[0]] + (s[1..] + k);
    }
  }

  /** A value starts with a character that is neither whitespace nor a closing bracket. */
  predicate StartsValue(s: string) {
    s != "" && !IsJsonWhitespace(s[0]) && s[0] != ']' && s[0] != '}'
  }

  // ------------------------------------------------------------ one step of the reader at a time

  lemma NumberReadsBack(s: string, k: string)
    requires IsNumber(s) && Ends(k)
    ensures ReadValue(s + k) == Got(Number(s), k)
  {
    NumberChars(s);
    RunStops(s, k);
    hide IsNumber, NumberRun;
    var text := s + k;
    assert text[|s|..] == k;
    assert text[0] == s[0];
    assert ReadNumber(text) == Got(Number(s), k);
    ReadsNumber(text);
  }

  lemma ReadsNumber(text: string)
    requires text != "" && (text[0] == '-' || IsDigit(text[0]))
    ensures ReadValue(text) == ReadNumber(text)
  {
    hide ReadNumber, ReadString, ReadItems, ReadMembers;
    assert SkipWhitespace(text) == text;
  }

  lemma ReadsLiteral(j: Json, k: string)
    requires j.Null? || j.Boolean?
    ensures ReadValue(Serialized(j) + k) == Got(j, k)
  {
    hide ReadNumber, ReadString, ReadItems, ReadMembers;
    var text := Serialized(j) + k;
    assert SkipWhitespace(text) == text;
    assert text[|Serialized(j)|..] == k;
    assert text[0] == Serialized(j)[0];
  }

  lemma ReadsString(s: string, k: string)
    ensures ReadValue(QuotedString(s) + k) == Got(String(s), k)
  {
    hide ReadNumber, ReadString, ReadItems, ReadMembers, EscapedAll;
    var text := QuotedString(s) + k;
    StringReadsBack(s, k);
    assert text[1..] == EscapedAll(s) + "\"" + k;
    assert SkipWhitespace(text) == text;
  }

  lemma ReadsArray(inner: string, items: seq<Json>, k: string)
    requires StartsValue(inner) && ReadItems(inner) == Got(items, k)
    ensures ReadValue("[" + inner) == Got(Array(items), k)
  {
    hide ReadNumber, ReadString, ReadItems, ReadMembers;
    var text := "[" + inner;
    assert text[1..] == inner;
    assert SkipWhitespace(text) == text && SkipWhitespace(inner) == inner;
  }

  lemma ReadsObject(inner: string, members: seq<Member>, k: string)
    requires StartsValue(inner) && ReadMembers(inner) == Got(members, k)
    ensures ReadValue("{" + inner) == Got(Object(members), k)
  {
    hide ReadNumber, ReadString, ReadItems, ReadMembers;
    var text := "{" + inner;
    assert text[1..] == inner;
    assert SkipWhitespace(text) == text && SkipWhitespace(inner) == inner;
  }

  lemma ReadsEmpty(k: string)
    ensures ReadValue("[]" + k) == Got(Array([]), k)
    ensures ReadValue("{}" + k) == Got(Object([]), k)
  {
    hide ReadNumber, ReadString, ReadItems, ReadMembers;
    assert SkipWhitespace("[]" + k) == "[]" + k && SkipWhitespace("{}" + k) == "{}" + k;
    assert ("[]" + k)[1..] == "]" + k && ("{}" + k)[1..] == "}" + k;
    assert ("]" + k)[1..] == k && ("}" + k)[1..] == k;
  }

  lemma ReadsLastItem(text: string, v: Json, k: string)
    requires ReadValue(text) == Got(v, "]" + k)
    ensures ReadItems(text) == Got([v], k)
  {
    hide ReadValue;
    assert SkipWhitespace("]" + k) == "]" + k;
    assert ("]" + k)[1..] == k;
  }

  lemma ReadsItem(text: string, v: Json, more: string, vs: seq<Json>, k: string)
    requires ReadValue(text) == Got(v, "," + more) && ReadItems(more) == Got(vs, k)
    ensures ReadItems(text) == Got([v] + vs, k)
  {
    hide ReadValue;
    assert SkipWhitespace("," + more) == "," + more;
    assert ("," + more)[1..] == more;
  }

  /** The name of a member and its colon. */
  lemma ReadsMemberName(name: string, value: string)
    ensures ReadMembers(QuotedString(name) + ":" + value) ==
      match ReadValue(value)
      case Failed => Failed
      case Got(v, rest) =>
        var t := SkipWhitespace(rest);
        if t == "" then Failed
        else if t[0] == '}' then Got([Member(name, v)], t[1..])
        else if t[0] == ',' then
          match ReadMembers(t[1..])
          case Failed => Failed
          case Got(ms, rest') => Got([Member(name, v)] + ms, rest')
        else Failed
  {
    hide ReadValue, ReadString, EscapedAll;
    var text := QuotedString(name) + ":" + value;
    assert SkipWhitespace(text) == text;
    StringReadsBack(name, ":" + value);
    assert text[1..] == EscapedAll(name) + "\"" + (":" + value);
    assert SkipWhitespace(":" + value) == ":" + value;
    assert (":" + value)[1..] == value;
  }

  lemma ReadsLastMember(name: string, value: string, v: Json, k: string)
    requires ReadValue(value) == Got(v, "}" + k)
    ensures ReadMembers(QuotedString(name) + ":" + value) == Got([Member(name, v)], k)
  {
    hide ReadValue, ReadMembers, QuotedString;
    ReadsMemberName(name, value);
    assert SkipWhitespace("}" + k) == "}" + k;
    assert ("}" + k)[1..] == k;
  }

  lemma ReadsMember(name: string, value: string, v: Json, more: string, ms: seq<Member>, k: string)
    requires ReadValue(value) == Got(v, "," + more) && ReadMembers(more) == Got(ms, k)
    ensures ReadMembers(QuotedString(name) + ":" + value) == Got([Member(name, v)] + ms, k)
  {
    hide ReadValue, ReadMembers, QuotedString;
    ReadsMemberName(name, value);
    assert SkipWhitespace("," + more) == "," + more;
    assert ("," + more)[1..] == more;
  }

  // ------------------------------------------------------------ all of them together

  lemma StartsLikeAValue(j: Json)
    requires IsWellFormed(j)
    ensures StartsValue(Serialized(j))
  {
    hide IsNumber;
    if j.Number? {
      NumberChars(j.lexeme);
    }
  }

  lemma {:induction false} ValueReadsBack(j: Json, k: string)
    requires IsWellFormed(j) && Ends(k)
    ensures ReadValue(Serialized(j) + k) == Got(j, k)
    decreases j, 1
  {
    hide ReadValue, ReadItems, ReadMembers, IsNumber, QuotedString;
    match j
    case Number(lexeme) => NumberReadsBack(lexeme, k);
    case String(chars) => ReadsString(chars, k);
    case Array(items) => ArrayReadsBack(items, k);
    case Object(members) => ObjectReadsBack(members, k);
    case _ => ReadsLiteral(j, k);
  }

  lemma {:induction false} ArrayReadsBack(items: seq<Json>, k: string)
    requires AreWellFormed(items)
    ensures ReadValue("[" + SerializedItems(items) + "]" + k) == Got(Array(items), k)
    decreases items, 1
  {
    hide ReadValue, ReadItems, ReadMembers, IsNumber;
    if |items| == 0 {
      ReadsEmpty(k);
      assert "[" + SerializedItems(items) + "]" + k == "[]" + k;
    } else {
      StartsLikeAValue(items[0]);
      ItemsReadBack(items, k);
      var inner := SerializedItems(items) + "]" + k;
      assert inner[0] == Serialized(items[0])[0];
      ReadsArray(inner, items, k);
      assert "[" + SerializedItems(items) + "]" + k == "[" + inner;
    }
  }

  lemma {:induction false} ItemsReadBack(items: seq<Json>, k: string)
    requires AreWellFormed(items) && |items| > 0
    ensures ReadItems(SerializedItems(items) + "]" + k) == Got(items, k)
    decreases items, 0
  {
    hide ReadValue, ReadItems, ReadMembers, IsNumber, Serialized;
    var text := SerializedItems(items) + "]" + k;
    if |items| == 1 {
      ValueReadsBack(items[0], "]" + k);
      ReadsLastItem(text, items[0], k) by {
        assert text == Serialized(items[0]) + ("]" + k);
      }
      assert items == [items[0]];
    } else {
      var more := SerializedItems(items[1..]) + "]" + k;
      ValueReadsBack(items[0], "," + more);
      ItemsReadBack(items[1..], k);
      ReadsItem(text, items[0], more, items[1..], k) by {
        assert text == Serialized(items[0]) + ("," + more);
      }
      assert items == [items[0]] + items[1..];
    }
  }

  lemma {:induction false} ObjectReadsBack(members: seq<Member>, k: string)
    requires AreWellFormedMembers(members)
    ensures ReadValue("{" + SerializedMembers(members) + "}" + k) == Got(Object(members), k)
    decreases members, 1
  {
    hide ReadValue, ReadItems, ReadMembers, IsNumber, Serialized;
    if |members| == 0 {
      ReadsEmpty(k);
      assert "{" + SerializedMembers(members) + "}" + k == "{}" + k;
    } else {
      MembersReadBack(members, k);
      var inner := SerializedMembers(members) + "}" + k;
      assert inner[0] == SerializedMember(members[0])[0] == '"';
      ReadsObject(inner, members, k);
      assert "{" + SerializedMembers(members) + "}" + k == "{" + inner;
    }
  }

  lemma {:induction false} MembersReadBack(members: seq<Member>, k: string)
    requires AreWellFormedMembers(members) && |members| > 0
    ensures ReadMembers(SerializedMembers(members) + "}" + k) == Got(members, k)
    decreases members, 0
  {
    hide ReadValue, ReadItems, ReadMembers, IsNumber, Serialized, QuotedString;
    var text := SerializedMembers(members) + "}" + k;
    var name, value := members[0].name, Serialized(members[0].value);
    if |members| == 1 {
      ValueReadsBack(members[0].value, "}" + k);
      ReadsLastMember(name, value + ("}" + k), members[0].value, k);
      assert SerializedMembers(members) == QuotedString(name) + ":" + value;
      assert text == QuotedString(name) + ":" + (value + ("}" + k));
      assert members == [members[0]];
    } else {
      var more := SerializedMembers(members[1..]) + "}" + k;
      ValueReadsBack(members[0].value, "," + more);
      MembersReadBack(members[1..], k);
      ReadsMember(name, value + ("," + more), members[0].value, more, members[1..], k);
      assert SerializedMembers(members) == QuotedString(name) + ":" + value + "," + SerializedMembers(members[1..]);
      assert text == QuotedString(name) + ":" + (value + ("," + more));
      assert members == [members[0]] + members[1..];
    }
  }

  /** Every value reads back from its own text, a final newline or none. */
  lemma TextReadsBack(j: Json, newline: bool)
    requires IsWellFormed(j)
    ensures ReadText(Serialized(j) + if newline then "\n" else "") == Some(j)
  {
    ValueReadsBack(j, if newline then "\n" else "");
  }
}
