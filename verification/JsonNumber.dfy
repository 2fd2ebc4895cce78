/** jsonIsNumber of src/cmdline/sqlrsh.cpp: one greedy scan decides membership in the number
    grammar of section 6 of RFC 8259. */
module JsonNumber {
  import opened Characters
  import opened JsonText

  predicate DigitAt(s: string, i: nat) {
    i < |s| && IsDigit(s[i])
  }

  // Where the greedy scan stands after the sign, the integer part, the fraction and the exponent.
  // The last three are None when the part is malformed.

  function SignEnd(s: string): nat {
    if s != "" && s[0] == '-' then 1 else 0
  }

  function IntEnd(s: string): (r: Option<nat>)
    ensures r.Some? ==> 0 < r.value <= |s|
  {
    var i := SignEnd(s);
    if !DigitAt(s, i) then None
    else if s[i] == '0' then Some(i + 1)
    else Some(DigitsEnd(s, i))
  }

  function FracEnd(s: string, i: nat): (r: Option<nat>)
    requires i <= |s|
    ensures r.Some? ==> i <= r.value <= |s|
  {
    if i == |s| || s[i] != '.' then Some(i)
    else if !DigitAt(s, i + 1) then None
    else Some(DigitsEnd(s, i + 1))
  }

  function ExpDigits(s: string, i: nat): (j: nat)
    requires i < |s|
    ensures i < j
  {
    if i + 1 < |s| && IsSign(s[i + 1]) then i + 2 else i + 1
  }

  function ExpEnd(s: string, i: nat): (r: Option<nat>)
    requires i <= |s|
    ensures r.Some? ==> i <= r.value <= |s|
  {
    if i == |s| || !IsExponentMark(s[i]) then Some(i)
    else if !DigitAt(s, ExpDigits(s, i)) then None
    else Some(DigitsEnd(s, ExpDigits(s, i)))
  }

  function NumberEnd(s: string): (r: Option<nat>) {
    match IntEnd(s)
    case None => None
    case Some(i) =>
      match FracEnd(s, i)
      case None => None
      case Some(j) => ExpEnd(s, j)
  }

  method JsonIsNumber(field: string) returns (r: bool)
    ensures r <==> IsNumber(field)
  {
    hide IsNumber, IntEnd, FracEnd, ExpEnd;
    GreedyScanIsExact(field);
    var length := |field|;
    var end := ScanInt(field);
    if end.Some? {
      end := ScanFrac(field, end.value);
    }
    if end.Some? {
      end := ScanExp(field, end.value);
    }
    return end == Some(length);
  }

  // The parts of that scan, each None where the source returns false.

  method ScanInt(field: string) returns (end: Option<nat>)
    ensures end == IntEnd(field)
  {
    hide DigitsEnd;
    var index := 0;
    if index < |field| && field[index] == '-' {
      index := index + 1;
    }
    if index >= |field| || !IsDigit(field[index]) {
      return None;
    }
    if field[index] == '0' {
      index := index + 1;
    } else {
      index := SkipDigits(field, index);
    }
    return Some(index);
  }

  method ScanFrac(field: string, start: nat) returns (end: Option<nat>)
    requires start <= |field|
    ensures end == FracEnd(field, start)
  {
    hide DigitsEnd;
    var index := start;
    if index < |field| && field[index] == '.' {
      index := index + 1;
      if index >= |field| || !IsDigit(field[index]) {
        return None;
      }
      index := SkipDigits(field, index);
    }
    return Some(index);
  }

  method ScanExp(field: string, start: nat) returns (end: Option<nat>)
    requires start <= |field|
    ensures end == ExpEnd(field, start)
  {
    hide DigitsEnd;
    var index := start;
    if index < |field| && (field[index] == 'e' || field[index] == 'E') {
      index := index + 1;
      if index < |field| && (field[index] == '-' || field[index] == '+') {
        index := index + 1;
      }
      if index >= |field| || !IsDigit(field[index]) {
        return None;
      }
      index := SkipDigits(field, index);
    }
    return Some(index);
  }

  /** The loop over digits, which the source repeats for each part of a number. */
  method SkipDigits(field: string, start: nat) returns (index: nat)
    requires start <= |field|
    ensures index == DigitsEnd(field, start)
  {
    index := start;
    while index < |field| && IsDigit(field[index])
      invariant start <= index <= |field|
      invariant DigitsEnd(field, index) == DigitsEnd(field, start)
    {
      index := index + 1;
    }
  }

  /** The greedy scan loses no derivation of the grammar, and finds none that isn't there. */
  lemma GreedyScanIsExact(s: string)
    ensures IsNumber(s) <==> NumberEnd(s) == Some(|s|)
  {
    if IsNumber(s) {
      var minus, whole, frac, exp :| IsNumberSplit(s, minus, whole, frac, exp);
      SplitIsScanned(s, minus, whole, frac, exp);
    }
    if NumberEnd(s) == Some(|s|) {
      ScanIsSplit(s);
    }
  }

  lemma SplitIsScanned(s: string, minus: string, whole: string, frac: string, exp: string)
    requires IsNumberSplit(s, minus, whole, frac, exp)
    ensures NumberEnd(s) == Some(|s|)
  {
    hide IsInt, IsFrac, IsExp, IntEnd, FracEnd, ExpEnd;
    var a, b, c := |minus|, |minus| + |whole|, |minus| + |whole| + |frac|;
    PartsOf(s, minus, whole, frac, exp);
    WholeIsScanned(s, a, b, c);
    FracIsScanned(s, b, c);
    ExpIsScanned(s, c);
  }

  lemma PartsOf(s: string, minus: string, whole: string, frac: string, exp: string)
    requires s == minus + whole + frac + exp
    ensures
      var a, b, c := |minus|, |minus| + |whole|, |minus| + |whole| + |frac|;
      s[..a] == minus && s[a..b] == whole && s[b..c] == frac && s[c..] == exp
  {
  }

  /** What follows a part of a number isn't a digit. */
  lemma NoDigitFollows(s: string, b: nat, c: nat)
    requires b <= c <= |s| && IsFrac(s[b..c]) && IsExp(s[c..])
    ensures !DigitAt(s, b)
  {
    if b < c {
      assert s[b] == s[b..c][0];
    } else if b < |s| {
      assert s[b] == s[c..][0];
    }
  }

  lemma WholeIsScanned(s: string, a: nat, b: nat, c: nat)
    requires a <= b <= c <= |s| && (s[..a] == "" || s[..a] == "-")
    requires IsInt(s[a..b]) && IsFrac(s[b..c]) && IsExp(s[c..])
    ensures IntEnd(s) == Some(b)
  {
    NoDigitFollows(s, b, c);
    hide IsFrac, IsExp;
    assert a < b && s[a] == s[a..b][0];
    assert a == 1 ==> s[0] == s[..a][0];
    assert a == SignEnd(s);
    if s[a] != '0' {
      forall j | a <= j < b
        ensures IsDigit(s[j])
      {
        assert s[j] == s[a..b][j - a];
      }
      DigitsEndIs(s, a, b);
    }
  }

  lemma FracIsScanned(s: string, b: nat, c: nat)
    requires b <= c <= |s| && IsFrac(s[b..c]) && IsExp(s[c..])
    ensures FracEnd(s, b) == Some(c)
  {
    assert c < |s| ==> s[c] == s[c..][0];
    if b < c {
      assert s[b] == s[b..c][0];
      assert s[b..c][1..] == s[b + 1..c];
      assert s[b + 1] == s[b + 1..c][0];
      forall j | b + 1 <= j < c
        ensures IsDigit(s[j])
      {
        assert s[j] == s[b + 1..c][j - (b + 1)];
      }
      DigitsEndIs(s, b + 1, c);
    }
  }

  lemma ExpIsScanned(s: string, c: nat)
    requires c <= |s| && IsExp(s[c..])
    ensures ExpEnd(s, c) == Some(|s|)
  {
    if c < |s| {
      var t := s[c..];
      assert s[c] == t[0] && (c + 1 < |s| ==> s[c + 1] == t[1]);
      assert t[1..] == s[c + 1..] && (c + 1 < |s| ==> t[2..] == s[c + 2..]);
      var d := ExpDigits(s, c);
      assert c + 1 < |s| by {
        assert IsDigits(t[1..]) || |t| > 1;
      }
      assert IsDigits(t[1..]) ==> IsDigit(t[1..][0]) && t[1..][0] == s[c + 1];
      assert IsDigits(s[d..]);
      forall j | d <= j < |s|
        ensures IsDigit(s[j])
      {
        assert s[j] == s[d..][j - d];
      }
      assert s[d] == s[d..][0];
      DigitsEndIs(s, d, |s|);
    }
  }

  lemma ScanIsSplit(s: string)
    requires NumberEnd(s) == Some(|s|)
    ensures IsNumber(s)
  {
    var a := SignEnd(s);
    var b := IntEnd(s).value;
    var c := FracEnd(s, b).value;
    ScannedInt(s);
    hide DigitsEnd, IsInt, IsFrac, IsExp, SignEnd, IntEnd, FracEnd, ExpEnd, IsNumber;
    ScannedFrac(s, b);
    ScannedExp(s, c);
    FourParts(s, a, b, c);
    IsSplit(s, s[..a], s[a..b], s[b..c], s[c..]);
  }

  lemma IsSplit(s: string, minus: string, whole: string, frac: string, exp: string)
    requires IsNumberSplit(s, minus, whole, frac, exp)
    ensures IsNumber(s)
  {
  }

  lemma FourParts(s: string, a: nat, b: nat, c: nat)
    requires a <= b <= c <= |s|
    ensures s == s[..a] + s[a..b] + s[b..c] + s[c..]
  {
  }

  lemma ScannedInt(s: string)
    requires IntEnd(s).Some?
    ensures SignEnd(s) <= IntEnd(s).value && IsInt(s[SignEnd(s)..IntEnd(s).value])
    ensures s[..SignEnd(s)] == "" || s[..SignEnd(s)] == "-"
  {
    DigitsUpToEnd(s, SignEnd(s));
    if SignEnd(s) == 1 {
      assert s[..1] == "-";
    }
  }

  lemma ScannedFrac(s: string, b: nat)
    requires b <= |s| && FracEnd(s, b).Some?
    ensures IsFrac(s[b..FracEnd(s, b).value])
  {
    var c := FracEnd(s, b).value;
    if b < c {
      DigitsUpToEnd(s, b + 1);
      assert s[b..c][1..] == s[b + 1..c];
    }
  }

  lemma ScannedExp(s: string, c: nat)
    requires c <= |s| && ExpEnd(s, c) == Some(|s|)
    ensures IsExp(s[c..])
  {
    if c < |s| {
      var t, d := s[c..], ExpDigits(s, c);
      assert t[1..] == s[c + 1..] && (|t| > 1 ==> t[2..] == s[c + 2..]);
      DigitsUpToEnd(s, d);
      assert IsDigits(s[d..]);
    }
  }
}
