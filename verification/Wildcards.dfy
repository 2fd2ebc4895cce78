/** getWild() of src/cmdline/sqlrsh.cpp: the pattern between the quotes of a "show" command. */
module Wildcards {
  import opened Characters

  const QUOTE := '\''

  predicate HasNoQuote(s: string) {
    forall i :: 0 <= i < |s| ==> s[i] != QUOTE
  }

  /** Two quotes in a row count as one. */
  function Unescaped(s: string): string {
    if s == [] then []
    else if |s| >= 2 && s[0] == QUOTE && s[1] == QUOTE then [QUOTE] + Unescaped(s[2..])
    else [s[0]] + Unescaped(s[1..])
  }

  /** The command's first quote is at i and its last one, another, at j. */
  predicate AreOuterQuotes(command: string, i: nat, j: nat) {
    && i < j < |command| && command[i] == QUOTE && command[j] == QUOTE
    && (forall k :: 0 <= k < i ==> command[k] != QUOTE)
    && (forall k :: j < k < |command| ==> command[k] != QUOTE)
  }

  method GetWild(command: string) returns (wild: Option<string>)
    ensures wild.None? ==> forall i, j :: 0 <= i < j < |command| ==> command[i] != QUOTE || command[j] != QUOTE
    ensures wild.Some? ==> exists i: nat, j: nat :: AreOuterQuotes(command, i, j) && wild.value == Unescaped(command[i + 1..j])
  {
    hide Unescaped;
    var first := 0;
    while first < |command| && command[first] != QUOTE
      invariant first <= |command| && forall k :: 0 <= k < first ==> command[k] != QUOTE
    {
      first := first + 1;
    }
    if first == |command| {
      return None;
    }
    var wildptr := first + 1;
    var endptr := |command|;
    while endptr > wildptr && command[endptr - 1] != QUOTE
      invariant wildptr <= endptr <= |command| && forall k :: endptr <= k < |command| ==> command[k] != QUOTE
    {
      endptr := endptr - 1;
    }
    if endptr == wildptr {
      return None;
    }
    endptr := endptr - 1;
    assert AreOuterQuotes(command, first, endptr);
    var output := new StringBuffer();
    var ch := wildptr;
    while ch < endptr
      invariant wildptr <= ch <= endptr + 1
      invariant ch <= endptr ==> Unescaped(command[wildptr..endptr]) == output.text + Unescaped(command[ch..endptr])
      invariant ch > endptr ==> Unescaped(command[wildptr..endptr]) == output.text
    {
      UnescapedStep(command, ch, endptr);
      if command[ch] == QUOTE && command[ch + 1] == QUOTE {
        ch := ch + 1;
      }
      output.Append([command[ch]]);
      ch := ch + 1;
    }
    assert command[endptr..endptr] == [];
    EmptyUnescapes();
    return Some(output.text);
  }

  lemma EmptyUnescapes()
    ensures Unescaped([]) == []
  {
  }

  /** One round of the loop, which may look at the last quote. */
  lemma UnescapedStep(command: string, ch: nat, endptr: nat)
    requires ch < endptr < |command| && command[endptr] == QUOTE
    ensures
      if command[ch] == QUOTE && command[ch + 1] == QUOTE then
        Unescaped(command[ch..endptr])
        == [QUOTE] + if ch + 2 <= endptr then Unescaped(command[ch + 2..endptr]) else []
      else Unescaped(command[ch..endptr]) == [command[ch]] + Unescaped(command[ch + 1..endptr])
  {
    var s := command[ch..endptr];
    assert s[1..] == command[ch + 1..endptr];
    if ch + 2 <= endptr {
      assert s[2..] == command[ch + 2..endptr];
    }
  }

  lemma {:induction false} DoubledUnescapes(s: string)
    ensures Unescaped(Doubled(s, QUOTE)) == s
  {
    if s != [] {
      DoubledUnescapes(s[1..]);
      var d := Doubled(s, QUOTE);
      if s[0] == QUOTE {
        assert d[2..] == Doubled(s[1..], QUOTE);
      } else {
        assert d[1..] == Doubled(s[1..], QUOTE);
      }
      assert s == [s[0]] + s[1..];
    }
  }

  /** Any pattern can be given: quoted, with its quotes doubled, it is what comes out. */
  method QuoteThenGetWild(before: string, pattern: string, after: string) returns (wild: Option<string>)
    requires HasNoQuote(before) && HasNoQuote(after)
    ensures wild == Some(pattern)
  {
    var quoted := Doubled(pattern, QUOTE);
    var command := before + [QUOTE] + quoted + [QUOTE] + after;
    ghost var i, j := |before|, |before| + 1 + |quoted|;
    assert command[i + 1..j] == quoted;
    assert AreOuterQuotes(command, i, j);
    wild := GetWild(command);
    DoubledUnescapes(pattern);
  }
}
