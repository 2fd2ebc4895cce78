/** Characters, C strings and the growable output buffer every other module uses.
    A char stands for one byte of the C++ program.  A C string is read through At,
    which returns the terminating NUL at and past the end. */
module Characters {

  datatype Option<+T> = None | Some(value: T) {
    function GetOr(default: T): T {
      match this
      case None => default
      case Some(v) => v
    }
  }

  lemma HeadAndTail<T>(s: seq<T>)
    requires s != []
    ensures s == [s[0]] + s[1..]
  {
  }

  lemma Regrouped<T>(a: seq<T>, b: seq<T>, c: seq<T>)
    ensures a + (b + c) == a + b + c
  {
  }

  const NUL := '\0'

  function At(s: string, i: nat): char {
    if i < |s| then s[i] else NUL
  }

  /** A C string, which holds no NUL, is over exactly where its terminator is read. */
  lemma NulIsTheEnd(s: string, i: nat)
    requires NUL !in s && i <= |s|
    ensures At(s, i) == NUL <==> i == |s|
  {
  }

  predicate IsWhitespace(c: char) {
    c == ' ' || '\t' <= c <= '\r'
  }

  predicate IsDigit(c: char) {
    '0' <= c <= '9'
  }

  predicate IsAlphabetical(c: char) {
    'a' <= c <= 'z' || 'A' <= c <= 'Z'
  }

  predicate IsAlphanumeric(c: char) {
    IsDigit(c) || IsAlphabetical(c)
  }

  /** The end of the run of digits that starts at i. */
  function DigitsEnd(s: string, i: nat): (end: nat)
    requires i <= |s|
    ensures i <= end <= |s|
    ensures !IsDigit(At(s, end))
    decreases |s| - i
  {
    if i < |s| && IsDigit(s[i]) then DigitsEnd(s, i + 1) else i
  }

  lemma {:induction false} DigitsUpToEnd(s: string, i: nat)
    requires i <= |s|
    ensures forall j :: i <= j < DigitsEnd(s, i) ==> IsDigit(s[j])
    decreases |s| - i
  {
    if i < |s| && IsDigit(s[i]) {
      DigitsUpToEnd(s, i + 1);
    }
  }

  lemma {:induction false} DigitsEndIs(s: string, i: nat, end: nat)
    requires i <= end <= |s|
    requires forall j :: i <= j < end ==> IsDigit(s[j])
    requires end < |s| ==> !IsDigit(s[end])
    ensures DigitsEnd(s, i) == end
    decreases |s| - i
  {
    if i < end {
      DigitsEndIs(s, i + 1, end);
    }
  }

  /** A number as printf writes it. */
  function Decimal(n: nat): (s: string)
    ensures s != "" && forall i :: 0 <= i < |s| ==> IsDigit(s[i])
  {
    if n < 10 then [('0' as nat + n) as char] else Decimal(n / 10) + [('0' as nat + n % 10) as char]
  }

  /** s with every quote in it written twice. */
  function Doubled(s: string, quote: char): string {
    if s == "" then "" else (if s[0] == quote then [quote, quote] else [s[0]]) + Doubled(s[1..], quote)
  }

  function UpperChar(c: char): char {
    if 'a' <= c <= 'z' then (c as int - 32) as char else c
  }

  function Upper(s: string): string {
    seq(|s|, i requires 0 <= i < |s| => UpperChar(s[i]))
  }

  class StringBuffer {
    var text: string

    constructor ()
      ensures text == ""
    {
      text := "";
    }

    method Append(s: string)
      modifies this
      ensures text == old(text) + s
    {
      text := text + s;
    }
  }
}
