/** getCommandFromFileOrString of src/cmdline/sqlrsh.cpp: one command at a time from a file or from
    a string. */
module CommandSplitter {
  import opened Characters

  // ------------------------------------------------------------ what one call takes

  /** Where a quote check leaves the scan, and its flag. */
  datatype Checked = Checked(at: nat, open: bool)

  /** Where a command ends, and whether that is at a delimiter. */
  datatype ScanEnd = ScanEnd(at: nat, delimited: bool) {
    /** where the next command may start */
    function Next(): nat {
      if delimited then at + 1 else at
    }
  }

  /** One of the two quote checks, on the character at i.  A quote that closes takes the next
      character along, and stays open if that one is a quote too.  The result is at |s| when the
      text ends right after such a quote. */
  function QuoteCheck(s: string, i: nat, quote: char, open: bool): (r: Checked)
    requires i < |s|
    ensures i <= r.at <= |s|
  {
    if s[i] != quote then Checked(i, open)
    else if !open then Checked(i, true)
    else if i + 1 == |s| then Checked(|s|, open)
    else Checked(i + 1, s[i + 1] == quote)
  }

  /** Where the command that the scan is in ends. */
  function Scan(s: string, i: nat, single: bool, double: bool, delimiter: char): (r: ScanEnd)
    requires i <= |s|
    ensures i <= r.at <= |s|
    ensures r.delimited ==> r.at < |s| && s[r.at] == delimiter
    ensures !r.delimited ==> r.at == |s|
    decreases |s| - i
  {
    if i == |s| then ScanEnd(|s|, false)
    else
      var first := QuoteCheck(s, i, '\'', single);
      if first.at == |s| then ScanEnd(|s|, false)
      else
        var second := QuoteCheck(s, first.at, '"', double);
        if second.at == |s| then ScanEnd(|s|, false)
        else if !first.open && !second.open && s[second.at] == delimiter then ScanEnd(second.at, true)
        else Scan(s, second.at + 1, first.open, second.open, delimiter)
  }

  /** Where the whitespace that starts at i is over. */
  function WhitespaceEnd(s: string, i: nat): (r: nat)
    requires i <= |s|
    ensures i <= r <= |s|
    ensures forall j :: i <= j < r ==> IsWhitespace(s[j])
    ensures r < |s| ==> !IsWhitespace(s[r])
    decreases |s| - i
  {
    if i < |s| && IsWhitespace(s[i]) then WhitespaceEnd(s, i + 1) else i
  }

  /** The command that starts at or after i: s[start..end], and where the next one may start.
      There is none when only whitespace is left. */
  datatype Command = NoCommand | Command(start: nat, end: nat, next: nat)

  function NextCommand(s: string, i: nat, delimiter: char): (r: Command)
    requires i <= |s|
    ensures r.Command? ==> i <= r.start <= r.end <= r.next <= |s| && i < r.next
  {
    var start := WhitespaceEnd(s, i);
    if start == |s| then NoCommand
    else
      var end := Scan(s, start, false, false, delimiter);
      Command(start, end.at, end.Next())
  }

  // ------------------------------------------------------------ reading it

  /** What commands are read from: a file, which is read until a read comes up short, or a C
      string, which is read up to its NUL. */
  class CommandSource {
    const data: string
    const isFile: bool
    var pos: nat

    ghost predicate Valid()
      reads this
    {
      pos <= |data|
    }

    constructor (data: string, isFile: bool)
      requires !isFile ==> NUL !in data
      ensures Valid() && pos == 0 && this.data == data && this.isFile == isFile
    {
      this.data, this.isFile, pos := data, isFile, 0;
    }

    /** The next character, or false at the end.  A file may hold NULs. */
    method Read() returns (ok: bool, ch: char)
      requires Valid() && IsText(data, isFile)
      modifies this
      ensures Valid()
      ensures ok <==> old(pos) < |data|
      ensures if ok then ch == data[old(pos)] && pos == old(pos) + 1 else pos == old(pos)
    {
      if isFile {
        ok := pos < |data|;
        ch := if ok then data[pos] else NUL;
      } else {
        NulIsTheEnd(data, pos);
        ch := At(data, pos);
        ok := ch != NUL;
      }
      if ok {
        pos := pos + 1;
      }
    }
  }

  ghost predicate IsText(data: string, isFile: bool) {
    isFile || NUL !in data
  }

  /** One quote check: a quote that closes is kept and the next character read in its place. */
  method HandleQuote(src: CommandSource, cmdbuffer: StringBuffer, ch: char, quote: char, open: bool)
    returns (ended: bool, ch': char, open': bool)
    requires src.Valid() && IsText(src.data, src.isFile)
    requires 0 < src.pos && ch == src.data[src.pos - 1]
    modifies src, cmdbuffer
    ensures src.Valid()
    ensures
      var s, i := src.data, old(src.pos) - 1;
      var to := QuoteCheck(s, i, quote, open);
      && (ended <==> to.at == |s|)
      && (ended ==> src.pos == |s|)
      && (!ended ==> src.pos == to.at + 1 && ch' == s[to.at] && open' == to.open)
      && cmdbuffer.text == old(cmdbuffer.text) + s[i..to.at]
  {
    ghost var s, i := src.data, src.pos - 1;
    ended, ch', open' := false, ch, open;
    assert s[i..i] == "";
    if ch == quote {
      if open {
        cmdbuffer.Append([ch]);
        assert [ch] == s[i..i + 1];
        var ok;
        ok, ch' := src.Read();
        if !ok {
          ended := true;
          return;
        }
        if ch' != quote {
          open' := false;
        }
      } else {
        open' := true;
      }
    }
  }

  /** What a round of the loop that starts at i leaves: the command over, or the scan as it was,
      further on, with the characters in between kept. */
  ghost predicate Handled(s: string, i: nat, single: bool, double: bool, delimiter: char,
                          base: string, start: nat, ended: bool, single': bool, double': bool, pos: nat, text: string)
    requires start <= i < |s|
  {
    var end := Scan(s, i, single, double, delimiter);
    if ended then pos == end.Next() && text == Kept(base, s, start, end.at)
    else
      && i < pos <= |s|
      && text == Kept(base, s, start, pos)
      && end == Scan(s, pos, single', double', delimiter)
  }

  /** The command ends at end and the next may start at pos, whatever the flags. */
  ghost predicate EndsHere(s: string, i: nat, single: bool, double: bool, delimiter: char,
                           base: string, start: nat, end: nat, pos: nat)
    requires start <= i < |s| && start <= end <= |s|
  {
    forall a, b ::
      Handled(s, i, single, double, delimiter, base, start, true, a, b, pos, Kept(base, s, start, end))
  }

  lemma HandledHere(s: string, i: nat, single: bool, double: bool, delimiter: char, base: string, start: nat)
    requires start <= i < |s|
    ensures
      var first := QuoteCheck(s, i, '\'', single);
      if first.at == |s| then
        EndsHere(s, i, single, double, delimiter, base, start, |s|, |s|)
      else
        var second := QuoteCheck(s, first.at, '"', double);
        var k := second.at;
        if k == |s| then
          EndsHere(s, i, single, double, delimiter, base, start, |s|, |s|)
        else if !first.open && !second.open && s[k] == delimiter then
          EndsHere(s, i, single, double, delimiter, base, start, k, k + 1)
        else
          Handled(s, i, single, double, delimiter, base, start, false, first.open, second.open, k + 1,
                  Kept(base, s, start, k + 1))
  {
    ScanStep(s, i, single, double, delimiter);
    hide Scan, QuoteCheck, Kept;
  }

  /** One round of the loop past the leading whitespace: both quote checks, the delimiter check,
      and the character kept when none of them ends the command. */
  method HandleCharacter(src: CommandSource, cmdbuffer: StringBuffer, first: char,
                         single: bool, double: bool, delimiter: char, ghost base: string, ghost start: nat)
    returns (ended: bool, single': bool, double': bool)
    requires src.Valid() && IsText(src.data, src.isFile)
    requires 0 < src.pos && first == src.data[src.pos - 1] && start < src.pos
    requires cmdbuffer.text == Kept(base, src.data, start, src.pos - 1)
    modifies src, cmdbuffer
    ensures src.Valid()
    ensures Handled(src.data, old(src.pos) - 1, single, double, delimiter, base, start,
                    ended, single', double', src.pos, cmdbuffer.text)
  {
    hide Scan, QuoteCheck, IsText, Kept, Handled;
    ghost var s, i := src.data, src.pos - 1;
    HandledHere(s, i, single, double, delimiter, base, start);
    var ch;
    ghost var j := QuoteCheck(s, i, '\'', single).at;
    KeptMore(base, s, start, i, j);
    ended, ch, single' := HandleQuote(src, cmdbuffer, first, '\'', single);
    double' := double;
    if !ended {
      ghost var k := QuoteCheck(s, j, '"', double).at;
      KeptMore(base, s, start, j, k);
      ended, ch, double' := HandleQuote(src, cmdbuffer, ch, '"', double);
      if !ended {
        if !single' && !double' && ch == delimiter {
          ended := true;
        } else {
          KeptMore(base, s, start, k, k + 1);
          OneCharacter(s, k);
          cmdbuffer.Append([ch]);
        }
      }
    }
  }

  /** The next command, or false at the end of the text. */
  method GetCommandFromFileOrString(src: CommandSource, cmdbuffer: StringBuffer, delimiter: char) returns (r: bool)
    requires src.Valid() && IsText(src.data, src.isFile)
    modifies src, cmdbuffer
    ensures src.Valid()
    ensures
      var s, c := src.data, NextCommand(src.data, old(src.pos), delimiter);
      && (r <==> c.Command?)
      && cmdbuffer.text == old(cmdbuffer.text) + (if r then s[c.start..c.end] else "")
      && src.pos == if r then c.next else |s|
  {
    ghost var s, base := src.data, cmdbuffer.text;
    ghost var start := WhitespaceEnd(s, src.pos);
    CommandHere(s, src.pos, delimiter);
    hide Scan, NextCommand, IsText, Kept;
    var ininitialwhitespace, insinglequotes, indoublequotes := true, false, false;
    while true
      invariant src.Valid()
      invariant ininitialwhitespace ==>
        && WhitespaceEnd(s, src.pos) == start && !insinglequotes && !indoublequotes
        && cmdbuffer.text == base
      invariant !ininitialwhitespace ==>
        && start < |s| && start <= src.pos
        && cmdbuffer.text == Kept(base, s, start, src.pos)
        && Scan(s, start, false, false, delimiter) == Scan(s, src.pos, insinglequotes, indoublequotes, delimiter)
      decreases |s| - src.pos
    {
      ghost var i := src.pos;
      var ok, ch, ended;
      ok, ch := src.Read();
      if !ok {
        return !ininitialwhitespace;
      }
      if ininitialwhitespace {
        if IsWhitespace(ch) {
          continue;
        }
        ininitialwhitespace := false;
      }
      ended, insinglequotes, indoublequotes :=
        HandleCharacter(src, cmdbuffer, ch, insinglequotes, indoublequotes, delimiter, base, start);
      if ended {
        return true;
      }
    }
  }

  /** What the buffer holds once s[from..to] has been added to it. */
  function Kept(base: string, s: string, from: nat, to: nat): string
    requires from <= to <= |s|
  {
    base + s[from..to]
  }

  lemma KeptMore(base: string, s: string, from: nat, to: nat, more: nat)
    requires from <= to <= more <= |s|
    ensures Kept(base, s, from, to) + s[to..more] == Kept(base, s, from, more)
  {
    assert s[from..to] + s[to..more] == s[from..more];
  }

  lemma OneCharacter(s: string, k: nat)
    requires k < |s|
    ensures s[k..k + 1] == [s[k]]
  {
  }

  lemma CommandHere(s: string, i: nat, delimiter: char)
    requires i <= |s|
    ensures
      var start := WhitespaceEnd(s, i);
      && (NextCommand(s, i, delimiter).NoCommand? <==> start == |s|)
      && (start < |s| ==>
            var end := Scan(s, start, false, false, delimiter);
            NextCommand(s, i, delimiter) == Command(start, end.at, end.Next()))
  {
  }

  lemma ScanStep(s: string, i: nat, single: bool, double: bool, delimiter: char)
    requires i < |s|
    ensures
      var first := QuoteCheck(s, i, '\'', single);
      if first.at == |s| then Scan(s, i, single, double, delimiter) == ScanEnd(|s|, false)
      else
        var second := QuoteCheck(s, first.at, '"', double);
        Scan(s, i, single, double, delimiter) ==
          if second.at == |s| then ScanEnd(|s|, false)
          else if !first.open && !second.open && s[second.at] == delimiter then ScanEnd(second.at, true)
          else Scan(s, second.at + 1, first.open, second.open, delimiter)
  {
  }
}
