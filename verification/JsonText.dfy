/** JSON texts: values, a reader following sections 2 to 7 of RFC 8259 over the bytes of a text,
    and the compact serialization that reader inverts. */
module JsonText {
  import opened Characters

  datatype Json =
    | Null
    | Boolean(b: bool)
    | Number(lexeme: string)
    | String(chars: string)
    | Array(items: seq<Json>)
    | Object(members: seq<Member>)

  datatype Member = Member(name: string, value: Json)

  // ------------------------------------------------------------ numbers, section 6

  /** One or more digits. */
  predicate IsDigits(s: string) {
    s != "" && forall i :: 0 <= i < |s| ==> IsDigit(s[i])
  }

  /** zero / ( digit1-9 *DIGIT ) */
  predicate IsInt(s: string) {
    IsDigits(s) && (s[0] == '0' ==> |s| == 1)
  }

  /** decimal-point 1*DIGIT, or nothing */
  predicate IsFrac(s: string) {
    s == "" || (s[0] == '.' && IsDigits(s[1..]))
  }

  predicate IsExponentMark(c: char) {
    c == 'e' || c == 'E'
  }

  predicate IsSign(c: char) {
    c == '-' || c == '+'
  }

  /** e [ minus / plus ] 1*DIGIT, or nothing */
  predicate IsExp(s: string) {
    s == "" ||
    (IsExponentMark(s[0]) &&
     (IsDigits(s[1..]) || (|s| > 1 && IsSign(s[1]) && IsDigits(s[2..]))))
  }

  /** [ minus ] int [ frac ] [ exp ] */
  ghost predicate IsNumber(s: string) {
    exists minus, whole, frac, exp :: IsNumberSplit(s, minus, whole, frac, exp)
  }

  predicate IsNumberSplit(s: string, minus: string, whole: string, frac: string, exp: string) {
    s == minus + whole + frac + exp && (minus == "" || minus == "-") && IsInt(whole) && IsFrac(frac) && IsExp(exp)
  }

  /** The characters a number can be made of. */
  predicate IsNumberChar(c: char) {
    IsDigit(c) || IsSign(c) || c == '.' || IsExponentMark(c)
  }

  /** The longest run of number characters at the front of s. */
  function NumberRun(s: string): (r: string)
    ensures r <= s
    ensures |r| < |s| ==> !IsNumberChar(s[|r|])
    ensures forall i :: 0 <= i < |r| ==> IsNumberChar(r[i])
  {
    if s == "" || !IsNumberChar(s[0]) then "" else [s[0]] + NumberRun(s[1..])
  }

  // ------------------------------------------------------------ the reader

  /** What was read and what is left of the text. */
  datatype Read<+T> = Failed | Got(value: T, rest: string) {
    predicate IsFailure() { Failed? }
    function PropagateFailure<U>(): Read<U> requires Failed? { Failed }
    function Extract(): (T, string) requires Got? { (value, rest) }
  }

  predicate IsJsonWhitespace(c: char) {
    c == ' ' || c == '\t' || c == '\n' || c == '\r'
  }

  function SkipWhitespace(s: string): (r: string)
    ensures |r| <= |s|
  {
    if s != "" && IsJsonWhitespace(s[0]) then SkipWhitespace(s[1..]) else s
  }

  function HexValue(c: char): Option<nat> {
    if '0' <= c <= '9' then Some(c as nat - '0' as nat)
    else if 'a' <= c <= 'f' then Some(c as nat - 'a' as nat + 10)
    else if 'A' <= c <= 'F' then Some(c as nat - 'A' as nat + 10)
    else None
  }

  /** The value of four hexadecimal digits. */
  function Hex4(s: string): (r: Option<nat>)
    ensures r.Some? ==> |s| >= 4 && r.value < 0x1_0000
  {
    if |s| < 4 then None
    else
      match (HexValue(s[0]), HexValue(s[1]), HexValue(s[2]), HexValue(s[3]))
      case (Some(a), Some(b), Some(c), Some(d)) =>
        assert a < 16 && b < 16 && c < 16 && d < 16;
        Some(a * 4096 + b * 256 + c * 16 + d)
      case _ => None
  }

  function Byte(n: nat): char
    requires n < 256
  {
    n as char
  }

  /** The UTF-8 form of a code point. */
  function Utf8(n: nat): string
    requires n < 0x11_0000
  {
    if n < 0x80 then [Byte(n)]
    else if n < 0x800 then [Byte(0xC0 + n / 0x40), Byte(0x80 + n % 0x40)]
    else if n < 0x1_0000 then [Byte(0xE0 + n / 0x1000), Byte(0x80 + n / 0x40 % 0x40), Byte(0x80 + n % 0x40)]
    else [Byte(0xF0 + n / 0x4_0000), Byte(0x80 + n / 0x1000 % 0x40), Byte(0x80 + n / 0x40 % 0x40), Byte(0x80 + n % 0x40)]
  }

  /** The character of a two-character escape. */
  function ShortEscape(c: char): Option<char> {
    match c
    case '"' => Some('"')
    case '\\' => Some('\\')
    case '/' => Some('/')
    case 'b' => Some('\U{08}')
    case 'f' => Some('\U{0C}')
    case 'n' => Some('\n')
    case 'r' => Some('\r')
    case 't' => Some('\t')
    case _ => None
  }

  /** What follows backslash u: one code unit, or a surrogate pair. */
  function ReadUnicodeEscape(s: string): (r: Read<string>)
    ensures r.Got? ==> |r.rest| < |s|
  {
    match Hex4(s)
    case None => Failed
    case Some(u) =>
      if u < 0xD800 || 0xE000 <= u then Got(Utf8(u), s[4..])
      else if u < 0xDC00 && |s| >= 6 && s[4] == '\\' && s[5] == 'u' then
        match Hex4(s[6..])
        case Some(v) =>
          if 0xDC00 <= v < 0xE000
          then Got(Utf8(0x1_0000 + (u - 0xD800) * 0x400 + (v - 0xDC00)), s[10..])
          else Failed
        case None => Failed
      else Failed
  }

  /** The rest of a string after its opening quote, section 7. */
  function ReadString(s: string): (r: Read<string>)
    ensures r.Got? ==> |r.rest| < |s|
    decreases |s|
  {
    if s == "" then Failed
    else if s[0] == '"' then Got("", s[1..])
    else if s[0] == '\\' then
      if |s| < 2 then Failed
      else if s[1] == 'u' then
        var (c, rest) :- ReadUnicodeEscape(s[2..]);
        var (cs, rest') :- ReadString(rest);
        Got(c + cs, rest')
      else
        match ShortEscape(s[1])
        case None => Failed
        case Some(c) =>
          var (cs, rest) :- ReadString(s[2..]);
          Got([c] + cs, rest)
    else if s[0] < ' ' then Failed
    else
      var (cs, rest) :- ReadString(s[1..]);
      Got([s[0]] + cs, rest)
  }

  ghost function ReadNumber(s: string): (r: Read<Json>)
    ensures r.Got? ==> |r.rest| < |s|
  {
    var run := NumberRun(s);
    if run != "" && IsNumber(run) then Got(Number(run), s[|run|..]) else Failed
  }

  /** A value, with the whitespace in front of it, section 3. */
  ghost function ReadValue(text: string): (r: Read<Json>)
    ensures r.Got? ==> |r.rest| < |text|
    decreases |text|, 0
  {
    var s := SkipWhitespace(text);
    if s == "" then Failed
    else if s[0] == '"' then
      var (cs, rest) :- ReadString(s[1..]);
      Got(String(cs), rest)
    else if s[0] == '[' then
      var first := SkipWhitespace(s[1..]);
      if first != "" && first[0] == ']' then Got(Array([]), first[1..])
      else
        var (items, rest) :- ReadItems(s[1..]);
        Got(Array(items), rest)
    else if s[0] == '{' then
      var first := SkipWhitespace(s[1..]);
      if first != "" && first[0] == '}' then Got(Object([]), first[1..])
      else
        var (members, rest) :- ReadMembers(s[1..]);
        Got(Object(members), rest)
    else if "null" <= s then Got(Null, s[4..])
    else if "true" <= s then Got(Boolean(true), s[4..])
    else if "false" <= s then Got(Boolean(false), s[5..])
    else ReadNumber(s)
  }

  /** The rest of a nonempty array, section 5. */
  ghost function ReadItems(s: string): (r: Read<seq<Json>>)
    ensures r.Got? ==> |r.rest| < |s|
    decreases |s|, 1
  {
    var (v, rest) :- ReadValue(s);
    var t := SkipWhitespace(rest);
    if t == "" then Failed
    else if t[0] == ']' then Got([v], t[1..])
    else if t[0] == ',' then
      var (vs, rest') :- ReadItems(t[1..]);
      Got([v] + vs, rest')
    else Failed
  }

  /** The rest of a nonempty object, section 4. */
  ghost function ReadMembers(text: string): (r: Read<seq<Member>>)
    ensures r.Got? ==> |r.rest| < |text|
    decreases |text|, 1
  {
    var s := SkipWhitespace(text);
    if s == "" || s[0] != '"' then Failed
    else
      var (name, rest) :- ReadString(s[1..]);
      var colon := SkipWhitespace(rest);
      if colon == "" || colon[0] != ':' then Failed
      else
        var (v, rest') :- ReadValue(colon[1..]);
        var t := SkipWhitespace(rest');
        if t == "" then Failed
        else if t[0] == '}' then Got([Member(name, v)], t[1..])
        else if t[0] == ',' then
          var (ms, rest'') :- ReadMembers(t[1..]);
          Got([Member(name, v)] + ms, rest'')
        else Failed
  }

  /** A whole JSON text, section 2. */
  ghost function ReadText(s: string): Option<Json> {
    match ReadValue(s)
    case Failed => None
    case Got(v, rest) => if SkipWhitespace(rest) == "" then Some(v) else None
  }

  // ------------------------------------------------------------ the compact serialization

  function HexDigit(n: nat): char
    requires n < 16
  {
    if n < 10 then ('0' as nat + n) as char else ('a' as nat + n - 10) as char
  }

  /** One character inside a string: the short escapes, and u00xx for the other controls. */
  function Escaped(c: char): string {
    match c
    case '"' => "\\\""
    case '\\' => "\\\\"
    case '\U{08}' => "\\b"
    case '\U{0C}' => "\\f"
    case '\n' => "\\n"
    case '\r' => "\\r"
    case '\t' => "\\t"
    case _ =>
      if c < ' ' then "\\u00" + [HexDigit(c as nat / 16), HexDigit(c as nat % 16)] else [c]
  }

  function EscapedAll(s: string): string {
    if s == "" then "" else Escaped(s[0]) + EscapedAll(s[1..])
  }

  function QuotedString(s: string): string {
    "\"" + EscapedAll(s) + "\""
  }

  function Serialized(j: Json): string
    decreases j
  {
    match j
    case Null => "null"
    case Boolean(b) => if b then "true" else "false"
    case Number(lexeme) => lexeme
    case String(chars) => QuotedString(chars)
    case Array(items) => "[" + SerializedItems(items) + "]"
    case Object(members) => "{" + SerializedMembers(members) + "}"
  }

  function SerializedItems(items: seq<Json>): string
    decreases items
  {
    if |items| == 0 then ""
    else if |items| == 1 then Serialized(items[0])
    else Serialized(items[0]) + "," + SerializedItems(items[1..])
  }

  function SerializedMember(m: Member): string
    decreases m
  {
    QuotedString(m.name) + ":" + Serialized(m.value)
  }

  function SerializedMembers(members: seq<Member>): string
    decreases members
  {
    if |members| == 0 then ""
    else if |members| == 1 then SerializedMember(members[0])
    else SerializedMember(members[0]) + "," + SerializedMembers(members[1..])
  }

  /** Every number in j is one. */
  ghost predicate IsWellFormed(j: Json)
    decreases j
  {
    match j
    case Number(lexeme) => IsNumber(lexeme)
    case Array(items) => AreWellFormed(items)
    case Object(members) => AreWellFormedMembers(members)
    case _ => true
  }

  ghost predicate AreWellFormed(items: seq<Json>)
    decreases items
  {
    |items| == 0 || (IsWellFormed(items[0]) && AreWellFormed(items[1..]))
  }

  ghost predicate AreWellFormedMembers(members: seq<Member>)
    decreases members
  {
    |members| == 0 || (IsWellFormed(members[0].value) && AreWellFormedMembers(members[1..]))
  }
}
