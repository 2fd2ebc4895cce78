/** The decimal timeouts of src/cmdline/sqlrsh.cpp: the parser, which rounds half up to whole
    microseconds within the bounds of its 32 bit variables, and the printer. */
module Timeouts {
  import opened Characters

  const MAX_SECONDS: nat := 2147483647
  const UINT32: nat := 0x1_0000_0000

  function DigitValue(c: char): nat
    requires IsDigit(c)
  {
    c as nat - '0' as nat
  }

  predicate AreDigits(s: string) {
    forall i :: 0 <= i < |s| ==> IsDigit(s[i])
  }

  /** The value of a run of digits. */
  function WholeValue(s: string): nat
    requires AreDigits(s)
  {
    if s == "" then 0 else WholeValue(s[..|s| - 1]) * 10 + DigitValue(s[|s| - 1])
  }

  /** The value of the digits after a decimal point. */
  function FractionValue(s: string): real
    requires AreDigits(s)
  {
    if s == "" then 0.0 else (DigitValue(s[0]) as real + FractionValue(s[1..])) / 10.0
  }

  /** The number of microseconds nearest to whole.frac seconds, the later of two equally near. */
  function RoundedMicroseconds(whole: string, frac: string): int
    requires AreDigits(whole) && AreDigits(frac)
  {
    ((WholeValue(whole) as real + FractionValue(frac)) * 1000000.0 + 0.5).Floor
  }

  predicate DigitsIn(s: string, i: nat, j: nat) {
    i <= j <= |s| && forall k :: i <= k < j ==> IsDigit(s[k])
  }

  predicate WhitespaceIn(s: string, i: nat, j: nat) {
    i <= j <= |s| && forall k :: i <= k < j ==> IsWhitespace(s[k])
  }

  /** s is whitespace, the digits in [a, b), perhaps a dot and digits up to c, and whitespace. */
  ghost predicate IsTimeout(s: string, a: nat, b: nat, c: nat) {
    && a < b <= c <= |s|
    && WhitespaceIn(s, 0, a)
    && DigitsIn(s, a, b)
    && (c == b || (s[b] == '.' && b + 1 < c && DigitsIn(s, b + 1, c)))
    && WhitespaceIn(s, c, |s|)
  }

  function Fraction(s: string, b: nat, c: nat): string
    requires b <= c <= |s|
  {
    if c == b then "" else s[b + 1..c]
  }

  ghost function TimeoutMicroseconds(s: string, a: nat, b: nat, c: nat): int
    requires IsTimeout(s, a, b, c)
  {
    assert AreDigits(s[a..b]) && AreDigits(Fraction(s, b, c));
    RoundedMicroseconds(s[a..b], Fraction(s, b, c))
  }

  /** A timeout that fits. */
  ghost predicate IsGoodTimeout(s: string, a: nat, b: nat, c: nat) {
    IsTimeout(s, a, b, c) && TimeoutMicroseconds(s, a, b, c) < (MAX_SECONDS + 1) * 1000000
  }

  // ------------------------------------------------------------ values

  lemma {:induction false} FractionBounds(s: string)
    requires AreDigits(s)
    ensures 0.0 <= FractionValue(s) < 1.0
  {
    if s != "" {
      FractionBounds(s[1..]);
    }
  }

  lemma {:induction false} WholePrefix(s: string, n: nat)
    requires AreDigits(s) && n <= |s|
    ensures WholeValue(s[..n]) <= WholeValue(s)
    decreases |s|
  {
    if n < |s| {
      WholePrefix(s[..|s| - 1], n);
      assert s[..|s| - 1][..n] == s[..n];
    } else {
      assert s[..n] == s;
    }
  }

  /** Whole seconds are whole seconds after rounding. */
  lemma RoundedSplits(whole: string, frac: string)
    requires AreDigits(whole) && AreDigits(frac)
    ensures RoundedMicroseconds(whole, frac) ==
      WholeValue(whole) * 1000000 + (FractionValue(frac) * 1000000.0 + 0.5).Floor
    ensures 0 <= (FractionValue(frac) * 1000000.0 + 0.5).Floor <= 1000000
  {
    FractionBounds(frac);
    var w, f := WholeValue(whole), FractionValue(frac);
    assert (w as real + f) * 1000000.0 + 0.5 == (w * 1000000) as real + (f * 1000000.0 + 0.5);
  }

  lemma NextWholeDigit(s: string, a: nat, i: nat)
    requires a <= i < |s| && DigitsIn(s, a, i + 1)
    ensures WholeValue(s[a..i + 1]) == WholeValue(s[a..i]) * 10 + DigitValue(s[i])
  {
    var t := s[a..i + 1];
    assert t[..|t| - 1] == s[a..i];
    assert t[|t| - 1] == s[i];
  }

  lemma NextFractionDigit(s: string, i: nat, c: nat)
    requires i < c <= |s| && DigitsIn(s, i, c)
    ensures FractionValue(s[i..c]) * 10.0 == DigitValue(s[i]) as real + FractionValue(s[i + 1..c])
  {
    var t := s[i..c];
    assert t[1..] == s[i + 1..c];
    assert t[0] == s[i];
  }

  /** A remainder rounds up exactly when its first digit is five or more. */
  lemma FirstDigitDecides(s: string, i: nat, c: nat)
    requires i < c <= |s| && DigitsIn(s, i, c)
    ensures FractionValue(s[i..c]) >= 0.5 <==> s[i] >= '5'
  {
    NextFractionDigit(s, i, c);
    FractionBounds(s[i + 1..c]);
  }

  // ------------------------------------------------------------ positions

  /** Where whitespace stops, a timeout starts. */
  lemma StartIsForced(s: string, a: nat, b: nat, c: nat, start: nat)
    requires IsTimeout(s, a, b, c) && WhitespaceIn(s, 0, start) && !IsWhitespace(At(s, start))
    ensures start == a && IsDigit(s[a])
  {
    assert IsDigit(s[a]);
    assert start < |s| ==> s[start] == At(s, start);
  }

  lemma WholeIsForced(s: string, a: nat, b: nat, c: nat, i: nat)
    requires IsTimeout(s, a, b, c) && a <= i <= |s| && DigitsIn(s, a, i)
    ensures i <= b
    ensures !IsDigit(At(s, i)) ==> i == b
  {
    assert b < |s| ==> !IsDigit(s[b]);
    assert i < |s| ==> s[i] == At(s, i);
  }

  lemma EndIsForced(s: string, a: nat, b: nat, c: nat, i: nat)
    requires IsTimeout(s, a, b, c)
    requires if i == b then At(s, b) != '.' else b + 1 < i && At(s, b) == '.' && DigitsIn(s, b + 1, i)
    requires b <= i && !IsDigit(At(s, i))
    ensures i == c
  {
    assert b < |s| ==> s[b] == At(s, b);
    assert c < |s| ==> s[c] == At(s, c);
    assert i < |s| ==> s[i] == At(s, i);
    if i > b {
      assert c > b;
    }
  }

  lemma TimeoutIsUnique(s: string, a: nat, b: nat, c: nat, a': nat, b': nat, c': nat)
    requires IsTimeout(s, a, b, c) && IsTimeout(s, a', b', c')
    ensures a == a' && b == b' && c == c'
  {
    StartIsForced(s, a', b', c', a) by {
      assert IsDigit(s[a]);
    }
    WholeIsForced(s, a', b', c', b) by {
      assert b < |s| ==> !IsDigit(s[b]);
    }
    EndIsForced(s, a', b', c', c) by {
      assert c < |s| ==> !IsDigit(s[c]);
    }
  }

  /** No timeout starts with anything but a digit. */
  lemma NoDigit(s: string, a: nat)
    requires WhitespaceIn(s, 0, a) && !IsWhitespace(At(s, a)) && !IsDigit(At(s, a))
    ensures forall a': nat, b': nat, c': nat :: !IsTimeout(s, a', b', c')
  {
    forall a': nat, b': nat, c': nat
      ensures !IsTimeout(s, a', b', c')
    {
      if IsTimeout(s, a', b', c') {
        StartIsForced(s, a', b', c', a);
      }
    }
  }

  /** Too many whole seconds stay too many, whatever follows. */
  lemma TooLong(s: string, a: nat, i: nat)
    requires WhitespaceIn(s, 0, a) && a < i && DigitsIn(s, a, i) && WholeValue(s[a..i]) > MAX_SECONDS
    ensures forall a': nat, b': nat, c': nat :: !IsGoodTimeout(s, a', b', c')
  {
    hide WholeValue, FractionValue, AreDigits;
    forall a': nat, b': nat, c': nat | IsTimeout(s, a', b', c')
      ensures TimeoutMicroseconds(s, a', b', c') >= (MAX_SECONDS + 1) * 1000000
    {
      assert IsDigit(s[a]);
      StartIsForced(s, a', b', c', a);
      WholeIsForced(s, a', b', c', i);
      var whole := s[a..b'];
      WholePrefix(whole, i - a);
      assert whole[..i - a] == s[a..i];
      RoundedSplits(whole, Fraction(s, b', c'));
    }
  }

  /** A dot needs a digit after it. */
  lemma NoFraction(s: string, a: nat, b: nat)
    requires WhitespaceIn(s, 0, a) && a < b && DigitsIn(s, a, b)
    requires At(s, b) == '.' && !IsDigit(At(s, b + 1))
    ensures forall a': nat, b': nat, c': nat :: !IsTimeout(s, a', b', c')
  {
    assert IsDigit(s[a]);
    forall a': nat, b': nat, c': nat
      ensures !IsTimeout(s, a', b', c')
    {
      if IsTimeout(s, a', b', c') {
        StartIsForced(s, a', b', c', a);
        WholeIsForced(s, a', b', c', b);
      }
    }
  }

  /** The parser's positions so far: digits in [a, b), and the end of the number at c. */
  ghost predicate Scanned(s: string, a: nat, b: nat, c: nat) {
    && a < b <= c <= |s|
    && WhitespaceIn(s, 0, a) && DigitsIn(s, a, b) && !IsDigit(At(s, b)) && !IsDigit(At(s, c))
    && (if c == b then At(s, b) != '.' else At(s, b) == '.' && b + 1 < c && DigitsIn(s, b + 1, c))
  }

  lemma ScannedIsForced(s: string, a: nat, b: nat, c: nat, a': nat, b': nat, c': nat)
    requires Scanned(s, a, b, c) && IsTimeout(s, a', b', c')
    ensures a' == a && b' == b && c' == c
  {
    assert IsDigit(s[a]);
    StartIsForced(s, a', b', c', a);
    WholeIsForced(s, a', b', c', b);
    EndIsForced(s, a', b', c', c);
  }

  /** Nothing but whitespace may follow. */
  lemma NotTheEnd(s: string, a: nat, b: nat, c: nat, i: nat)
    requires Scanned(s, a, b, c) && c <= i < |s| && !IsWhitespace(s[i])
    ensures forall a': nat, b': nat, c': nat :: !IsTimeout(s, a', b', c')
  {
    forall a': nat, b': nat, c': nat
      ensures !IsTimeout(s, a', b', c')
    {
      if IsTimeout(s, a', b', c') {
        ScannedIsForced(s, a, b, c, a', b', c');
      }
    }
  }

  /** The one way to read a timeout decides whether it fits. */
  lemma TooBig(s: string, a: nat, b: nat, c: nat)
    requires Scanned(s, a, b, c)
    requires RoundedMicroseconds(s[a..b], Fraction(s, b, c)) >= (MAX_SECONDS + 1) * 1000000
    ensures forall a': nat, b': nat, c': nat :: !IsGoodTimeout(s, a', b', c')
  {
    forall a': nat, b': nat, c': nat | IsTimeout(s, a', b', c')
      ensures a' == a && b' == b && c' == c
    {
      ScannedIsForced(s, a, b, c, a', b', c');
    }
  }

  // ------------------------------------------------------------ the parser

  /** The six weights of the loop over the fraction, and 0 once they are used up. */
  function Scale(j: nat): nat {
    match j
    case 0 => 100000
    case 1 => 10000
    case 2 => 1000
    case 3 => 100
    case 4 => 10
    case 5 => 1
    case _ => 0
  }

  /** What a fraction of the j-th weight is worth in microseconds. */
  function Weight(j: nat): real {
    match j
    case 0 => 1000000.0
    case 1 => 100000.0
    case 2 => 10000.0
    case 3 => 1000.0
    case 4 => 100.0
    case 5 => 10.0
    case _ => 1.0
  }

  /** How the digits so far and the ones to come make up the fraction. */
  ghost predicate Accounted(s: string, from: nat, c: nat, i: nat, usec: nat)
    requires from <= i <= c <= |s| && DigitsIn(s, from, c)
  {
    FractionValue(s[from..c]) * 1000000.0 == usec as real + FractionValue(s[i..c]) * Weight(i - from)
  }

  lemma WeighedDigit(s: string, from: nat, c: nat, i: nat, usec: nat)
    requires from <= i < c <= |s| && DigitsIn(s, from, c) && i - from < 6
    requires Accounted(s, from, c, i, usec)
    ensures Accounted(s, from, c, i + 1, usec + DigitValue(s[i]) * Scale(i - from))
  {
    NextFractionDigit(s, i, c);
  }

  lemma UsecIsSmall(s: string, from: nat, c: nat, i: nat, usec: nat)
    requires from <= i <= c <= |s| && DigitsIn(s, from, c)
    requires Accounted(s, from, c, i, usec)
    ensures usec <= 999999
  {
    FractionBounds(s[from..c]);
    FractionBounds(s[i..c]);
  }

  /** usec is the fraction rounded half up, once all of its digits have been seen. */
  lemma RoundedFraction(s: string, from: nat, c: nat, usec: nat)
    requires from < c <= |s| && DigitsIn(s, from, c)
    requires if c - from <= 6 then Accounted(s, from, c, c, usec)
             else usec >= (if s[from + 6] >= '5' then 1 else 0)
                  && Accounted(s, from, c, from + 6, usec - if s[from + 6] >= '5' then 1 else 0)
    ensures (FractionValue(s[from..c]) * 1000000.0 + 0.5).Floor == usec
  {
    if c - from > 6 {
      FractionBounds(s[from + 6..c]);
      FirstDigitDecides(s, from + 6, c);
    } else {
      assert s[c..c] == "";
    }
  }

  /** The value of what has been scanned. */
  ghost predicate Valued(s: string, a: nat, b: nat, c: nat, sec: nat, usec: nat) {
    && Scanned(s, a, b, c)
    && RoundedMicroseconds(s[a..b], Fraction(s, b, c)) == sec * 1000000 + usec
    && usec <= 999999
  }

  lemma NoFractionValue(s: string, a: nat, b: nat, sec: nat)
    requires Scanned(s, a, b, b) && sec == WholeValue(s[a..b])
    ensures Valued(s, a, b, b, sec, 0)
  {
    RoundedSplits(s[a..b], "");
  }

  lemma FractionIsValued(s: string, a: nat, b: nat, c: nat, sec: nat, usec: nat)
    requires Scanned(s, a, b, c) && c > b && sec == WholeValue(s[a..b])
    requires (FractionValue(s[b + 1..c]) * 1000000.0 + 0.5).Floor == usec
    ensures usec <= 1000000
    ensures if usec > 999999 then Valued(s, a, b, c, sec + 1, 0) else Valued(s, a, b, c, sec, usec)
  {
    RoundedSplits(s[a..b], s[b + 1..c]);
  }

  method ParseTimeout(args: string) returns (ok: bool, sec: nat, usec: nat)
    requires NUL !in args
    ensures ok ==> usec <= 999999 && sec <= MAX_SECONDS && exists a, b, c ::
      IsGoodTimeout(args, a, b, c) && sec * 1000000 + usec == TimeoutMicroseconds(args, a, b, c)
    ensures !ok ==> forall a: nat, b: nat, c: nat :: !IsGoodTimeout(args, a, b, c)
  {
    hide IsTimeout, RoundedMicroseconds, FractionValue, WholeValue, TimeoutMicroseconds;
    sec, usec := 0, 0;
    var i := 0;
    while IsWhitespace(At(args, i))
      invariant WhitespaceIn(args, 0, i)
      decreases |args| - i
    {
      i := i + 1;
    }
    if !IsDigit(At(args, i)) {
      NoDigit(args, i);
      return false, sec, usec;
    }

    ghost var a := i;
    EmptyValue(args, a);
    while IsDigit(At(args, i))
      invariant a <= i && DigitsIn(args, a, i)
      invariant i == a ==> IsDigit(At(args, i))
      invariant sec == WholeValue(args[a..i]) && sec <= MAX_SECONDS
      decreases |args| - i
    {
      NextWholeDigit(args, a, i);
      if sec > 214748364 {
        TooLong(args, a, i + 1);
        return false, sec, usec;
      }
      // neither product nor sum leaves 32 bits
      assert sec * 10 + DigitValue(args[i]) < UINT32;
      sec := sec * 10 + DigitValue(args[i]);
      if sec > 2147483647 {
        TooLong(args, a, i + 1);
        return false, sec, usec;
      }
      i := i + 1;
    }

    ghost var b, c := i, i;
    if At(args, i) == '.' {
      i := i + 1;
      if !IsDigit(At(args, i)) {
        NoFraction(args, a, b);
        return false, sec, usec;
      }
      i, usec := ParseFraction(args, i);
      c := i;
      FractionIsValued(args, a, b, c, sec, usec);
      if usec > 999999 {
        usec := 0;
        assert sec + 1 < UINT32;
        sec := sec + 1;
        if sec > 2147483647 {
          TooBig(args, a, b, c);
          return false, sec, usec;
        }
      }
    } else {
      NoFractionValue(args, a, b, sec);
    }
    assert Valued(args, a, b, c, sec, usec);

    while IsWhitespace(At(args, i))
      invariant WhitespaceIn(args, c, i)
      decreases |args| - i
    {
      i := i + 1;
    }
    NulIsTheEnd(args, i);
    if At(args, i) != NUL {
      NotTheEnd(args, a, b, c, i);
      return false, sec, usec;
    }
    Parsed(args, a, b, c, sec, usec);
    return true, sec, usec;
  }

  lemma EmptyValue(s: string, a: nat)
    requires a <= |s|
    ensures WholeValue(s[a..a]) == 0
  {
  }

  lemma Parsed(s: string, a: nat, b: nat, c: nat, sec: nat, usec: nat)
    requires Valued(s, a, b, c, sec, usec) && sec <= MAX_SECONDS && WhitespaceIn(s, c, |s|)
    ensures IsGoodTimeout(s, a, b, c) && sec * 1000000 + usec == TimeoutMicroseconds(s, a, b, c)
  {
    hide RoundedMicroseconds;
  }

  lemma StartsAccounted(s: string, from: nat, c: nat)
    requires from < c <= |s| && DigitsIn(s, from, c)
    ensures Accounted(s, from, c, from, 0)
  {
  }

  /** A weight of the loop is the next one times ten, and there are six. */
  lemma NextScale(j: nat)
    ensures Scale(j + 1) == Scale(j) / 10
    ensures Scale(j) == 0 <==> j >= 6
    ensures Scale(0) == 100000
  {
  }

  /** The loop over the fraction's digits: six of them count, the seventh rounds, the rest are
      skipped. */
  method ParseFraction(args: string, from: nat) returns (end: nat, usec: nat)
    requires IsDigit(At(args, from))
    ensures from < end <= |args| && DigitsIn(args, from, end) && !IsDigit(At(args, end))
    ensures (FractionValue(args[from..end]) * 1000000.0 + 0.5).Floor == usec
  {
    hide FractionValue, Scale, Weight, DigitsEnd;
    ghost var c := DigitsEnd(args, from);
    DigitsUpToEnd(args, from);
    StartsAccounted(args, from, c);
    NextScale(0);
    usec := 0;
    var i := from;
    var scale := 100000;
    var rounded := false;
    ghost var six := 0;
    while IsDigit(At(args, i))
      invariant from <= i <= c
      invariant scale == Scale(i - from)
      invariant if i - from <= 6 then !rounded && Accounted(args, from, c, i, usec)
                else rounded && Accounted(args, from, c, from + 6, six)
                     && usec == six + if args[from + 6] >= '5' then 1 else 0
      invariant usec <= 1000000
      decreases |args| - i
    {
      NextScale(i - from);
      if scale != 0 {
        WeighedDigit(args, from, c, i, usec);
        UsecIsSmall(args, from, c, i + 1, usec + DigitValue(args[i]) * scale);
        usec := usec + DigitValue(args[i]) * scale;
        scale := scale / 10;
      } else if !rounded {
        six := usec;
        UsecIsSmall(args, from, c, i, usec);
        if args[i] >= '5' {
          usec := usec + 1;
        }
        rounded := true;
      }
      i := i + 1;
    }
    end := i;
    RoundedFraction(args, from, c, usec);
  }

  // ------------------------------------------------------------ the printer

  lemma {:induction false} DecimalValue(n: nat)
    ensures WholeValue(Decimal(n)) == n
  {
    var s := Decimal(n);
    if n < 10 {
      assert s[..0] == "";
    } else {
      DecimalValue(n / 10);
      assert s[..|s| - 1] == Decimal(n / 10);
    }
  }

  function DigitChar(n: nat): (c: char)
    ensures IsDigit(c) && DigitValue(c) == n % 10
  {
    ('0' as nat + n % 10) as char
  }

  /** Six digits, with leading zeros. */
  function SixDigits(n: nat): (s: string)
    ensures |s| == 6 && AreDigits(s)
  {
    [DigitChar(n / 10 / 10 / 10 / 10 / 10), DigitChar(n / 10 / 10 / 10 / 10), DigitChar(n / 10 / 10 / 10),
     DigitChar(n / 10 / 10), DigitChar(n / 10), DigitChar(n)]
  }

  /** -1 for a timeout that is off, and otherwise seconds, a dot and six digits. */
  function Printed(sec: int, usec: int): string {
    if sec < 0 || usec < 0 then "-1" else Decimal(sec) + "." + SixDigits(usec)
  }

  lemma SixDigitsValue(n: nat)
    requires n <= 999999
    ensures FractionValue(SixDigits(n)) * 1000000.0 == n as real
  {
    SixDigitFraction(SixDigits(n));
    SixPlaces(n);
    hide FractionValue, AreDigits;
  }

  lemma SixPlaces(n: nat)
    requires n <= 999999
    ensures var s := SixDigits(n);
      DigitValue(s[0]) * 100000 + DigitValue(s[1]) * 10000 + DigitValue(s[2]) * 1000
      + DigitValue(s[3]) * 100 + DigitValue(s[4]) * 10 + DigitValue(s[5]) == n
  {
    var a := n / 10;
    var b := a / 10;
    var c := b / 10;
    var d := c / 10;
    var e := d / 10;
    var s := SixDigits(n);
    assert s == [DigitChar(e), DigitChar(d), DigitChar(c), DigitChar(b), DigitChar(a), DigitChar(n)];
    hide SixDigits, DigitChar, DigitValue;
    assert d == e * 10 + DigitValue(s[1]) && e == DigitValue(s[0]) by {
      LastDigit(d);
      LastDigit(e);
    }
    assert b == c * 10 + DigitValue(s[3]) && c == d * 10 + DigitValue(s[2]) by {
      LastDigit(b);
      LastDigit(c);
    }
    assert n == a * 10 + DigitValue(s[5]) && a == b * 10 + DigitValue(s[4]) by {
      LastDigit(n);
      LastDigit(a);
    }
  }

  lemma LastDigit(n: nat)
    ensures n == n / 10 * 10 + DigitValue(DigitChar(n))
  {
  }

  lemma SixDigitFraction(s: string)
    requires |s| == 6 && AreDigits(s)
    ensures FractionValue(s) * 1000000.0 ==
      (DigitValue(s[0]) * 100000 + DigitValue(s[1]) * 10000 + DigitValue(s[2]) * 1000
       + DigitValue(s[3]) * 100 + DigitValue(s[4]) * 10 + DigitValue(s[5])) as real
  {
    NextFractionDigit(s, 0, 6);
    NextFractionDigit(s, 1, 6);
    NextFractionDigit(s, 2, 6);
    NextFractionDigit(s, 3, 6);
    NextFractionDigit(s, 4, 6);
    NextFractionDigit(s, 5, 6);
    assert s[0..6] == s && s[6..6] == "";
    hide FractionValue;
    assert FractionValue(s[6..6]) == 0.0 by {
    }
  }

  lemma PrintedIsTimeout(sec: nat, usec: nat)
    requires sec <= MAX_SECONDS && usec <= 999999
    ensures var s := Printed(sec, usec);
      && NUL !in s
      && IsGoodTimeout(s, 0, |Decimal(sec)|, |s|)
      && TimeoutMicroseconds(s, 0, |Decimal(sec)|, |s|) == sec * 1000000 + usec
  {
    hide FractionValue, WholeValue, Decimal, SixDigits;
    var whole, frac := Decimal(sec), SixDigits(usec);
    var s := Printed(sec, usec);
    var b := |whole|;
    assert s[0..b] == whole && s[b] == '.' && s[b + 1..|s|] == frac;
    forall i | b + 1 <= i < |s|
      ensures s[i] == frac[i - (b + 1)]
    {
    }
    assert IsTimeout(s, 0, b, |s|);
    DecimalValue(sec);
    SixDigitsValue(usec);
    RoundedSplits(whole, frac);
  }

  /** What is printed for a timeout that is on parses to the same timeout. */
  method PrintThenParse(sec: nat, usec: nat) returns (ok: bool, sec': nat, usec': nat)
    requires sec <= MAX_SECONDS && usec <= 999999
    ensures ok && sec' == sec && usec' == usec
  {
    hide IsTimeout, TimeoutMicroseconds, Printed;
    var text := Printed(sec, usec);
    PrintedIsTimeout(sec, usec);
    ok, sec', usec' := ParseTimeout(text);
    ghost var a: nat, b: nat, c: nat :| IsGoodTimeout(text, a, b, c)
      && sec' * 1000000 + usec' == TimeoutMicroseconds(text, a, b, c);
    TimeoutIsUnique(text, a, b, c, 0, |Decimal(sec)|, |text|);
  }

  /** The help text says that whatever the get commands print can be given straight back to the
      setter.  That is so exactly when the timeout is on: -1 is not a timeout. */
  lemma PrintedParsesIff(sec: int, usec: int)
    requires sec <= MAX_SECONDS && usec <= 999999
    ensures (exists a: nat, b: nat, c: nat :: IsGoodTimeout(Printed(sec, usec), a, b, c))
       <==> sec >= 0 && usec >= 0
  {
    hide IsTimeout, TimeoutMicroseconds;
    if sec < 0 || usec < 0 {
      NoDigit("-1", 0);
    } else {
      hide Printed;
      PrintedIsTimeout(sec, usec);
    }
  }
}
