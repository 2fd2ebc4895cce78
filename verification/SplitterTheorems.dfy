/** What repeated calls of the command splitter promise. */
module SplitterTheorems {
  import opened Characters
  import opened CommandSplitter

  // ------------------------------------------------------------ a whole text

  /** Commands with the whitespace in front of each, and the delimiter after it if there is one. */
  datatype Piece = Piece(whitespace: string, command: string, delimiter: string)

  /** The pieces of s from i onwards.  delimiters(n) is the delimiter in force for command n, since
      a command may change it. */
  function Pieces(s: string, i: nat, n: nat, delimiters: nat -> char): (r: seq<Piece>)
    requires i <= |s|
    decreases |s| - i
  {
    match NextCommand(s, i, delimiters(n))
    case NoCommand => []
    case Command(start, end, next) =>
      [Piece(s[i..start], s[start..end], s[end..next])] + Pieces(s, next, n + 1, delimiters)
  }

  function Joined(pieces: seq<Piece>): string {
    if pieces == [] then "" else
    pieces[0].whitespace + pieces[0].command + pieces[0].delimiter + Joined(pieces[1..])
  }

  function CommandsOf(pieces: seq<Piece>): seq<string> {
    seq(|pieces|, i requires 0 <= i < |pieces| => pieces[i].command)
  }

  /** A piece is whitespace, then a command that doesn't start with any, then its delimiter; only
      the last one can go without. */
  ghost predicate IsPiece(p: Piece, delimiter: char, isLast: bool) {
    && (forall i :: 0 <= i < |p.whitespace| ==> IsWhitespace(p.whitespace[i]))
    && (p.command != "" ==> !IsWhitespace(p.command[0]))
    && (p.delimiter == [delimiter] || (p.delimiter == "" && isLast && p.command != ""))
  }

  ghost predicate ArePieces(pieces: seq<Piece>, n: nat, delimiters: nat -> char) {
    pieces == [] ||
    (IsPiece(pieces[0], delimiters(n), |pieces| == 1) && ArePieces(pieces[1..], n + 1, delimiters))
  }

  /** Splitting conserves the text: pieces and trailing whitespace concatenate back to it, for
      every text and every delimiter or sequence of delimiters. */
  lemma {:induction false} SplittingConserves(s: string, i: nat, n: nat, delimiters: nat -> char) returns (rest: string)
    requires i <= |s|
    ensures s[i..] == Joined(Pieces(s, i, n, delimiters)) + rest
    ensures forall j :: 0 <= j < |rest| ==> IsWhitespace(rest[j])
    ensures ArePieces(Pieces(s, i, n, delimiters), n, delimiters)
    decreases |s| - i
  {
    match NextCommand(s, i, delimiters(n))
    case NoCommand =>
      hide Scan;
      rest := s[i..];
    case Command(start, end, next) =>
      hide NextCommand, IsPiece;
      rest := SplittingConserves(s, next, n + 1, delimiters);
      FirstPiece(s, i, delimiters(n));
      NothingAfterTheEnd(s, next, n + 1, delimiters);
      var p := Piece(s[i..start], s[start..end], s[end..next]);
      var more := Pieces(s, next, n + 1, delimiters);
      PieceInFront(s, i, start, end, next, p, more, rest);
      assert ([p] + more)[1..] == more;
      WeakerPiece(p, delimiters(n), end == next, more == []);
  }

  lemma PieceInFront(s: string, i: nat, start: nat, end: nat, next: nat, p: Piece, more: seq<Piece>, rest: string)
    requires i <= start <= end <= next <= |s|
    requires p == Piece(s[i..start], s[start..end], s[end..next])
    requires s[next..] == Joined(more) + rest
    ensures s[i..] == Joined([p] + more) + rest
  {
    assert ([p] + more)[1..] == more;
    assert s[i..] == s[i..start] + s[start..end] + s[end..next] + s[next..];
  }

  lemma NothingAfterTheEnd(s: string, i: nat, n: nat, delimiters: nat -> char)
    requires i <= |s|
    ensures i == |s| ==> Pieces(s, i, n, delimiters) == []
  {
  }

  lemma WeakerPiece(p: Piece, delimiter: char, undelimited: bool, isLast: bool)
    requires IsPiece(p, delimiter, undelimited) && (undelimited ==> isLast)
    ensures IsPiece(p, delimiter, isLast)
  {
  }

  lemma FirstPiece(s: string, i: nat, delimiter: char)
    requires i <= |s| && NextCommand(s, i, delimiter).Command?
    ensures var c := NextCommand(s, i, delimiter);
      && IsPiece(Piece(s[i..c.start], s[c.start..c.end], s[c.end..c.next]), delimiter, c.end == c.next)
      && (c.end == c.next ==> c.next == |s|)
  {
    hide Scan;
  }

  function CommandsFrom(s: string, i: nat, n: nat, delimiters: nat -> char): seq<string>
    requires i <= |s|
  {
    CommandsOf(Pieces(s, i, n, delimiters))
  }

  /** The loop that reads the commands of a script or of a command list. */
  method GetCommands(src: CommandSource, delimiters: nat -> char) returns (commands: seq<string>)
    requires src.Valid() && src.pos == 0 && IsText(src.data, src.isFile)
    modifies src
    ensures commands == CommandsFrom(src.data, 0, 0, delimiters)
  {
    hide CommandsFrom, NextCommand, IsText;
    ghost var all := CommandsFrom(src.data, 0, 0, delimiters);
    ghost var rest := all;
    commands := [];
    assert commands + rest == all;
    var more := true;
    while more
      invariant src.Valid()
      invariant more ==> rest == CommandsFrom(src.data, src.pos, |commands|, delimiters)
      invariant commands + rest == all
      invariant !more ==> rest == []
      decreases more, |src.data| - src.pos
    {
      var n := |commands|;
      ghost var pos := src.pos;
      NextCommandFrom(src.data, pos, n, delimiters);
      var command := new StringBuffer();
      more := GetCommandFromFileOrString(src, command, delimiters(n));
      if more {
        assert rest == [rest[0]] + rest[1..];
        CommandInFront(commands, command.text, rest[1..]);
        assert command.text == rest[0];
        commands := commands + [command.text];
        rest := rest[1..];
      }
    }
    assert commands + [] == commands;
  }

  lemma CommandInFront(done: seq<string>, command: string, rest: seq<string>)
    ensures done + ([command] + rest) == (done + [command]) + rest
    ensures "" + command == command
  {
  }

  lemma NextCommandFrom(s: string, i: nat, n: nat, delimiters: nat -> char)
    requires i <= |s|
    ensures var c := NextCommand(s, i, delimiters(n));
      CommandsFrom(s, i, n, delimiters) ==
        if c.NoCommand? then [] else [s[c.start..c.end]] + CommandsFrom(s, c.next, n + 1, delimiters)
  {
    hide NextCommand;
  }

  /** A script file and a command list with the same text give the same commands. */
  method FileAndStringAgree(text: string, delimiters: nat -> char) returns (fromFile: seq<string>, fromString: seq<string>)
    requires NUL !in text
    ensures fromFile == fromString == CommandsFrom(text, 0, 0, delimiters)
  {
    var file := new CommandSource(text, true);
    fromFile := GetCommands(file, delimiters);
    var list := new CommandSource(text, false);
    fromString := GetCommands(list, delimiters);
  }

  // ------------------------------------------------------------ which delimiters end a command

  /** An odd number of quotes in s[from..to]. */
  predicate OddQuotes(s: string, quote: char, from: nat, to: nat)
    requires from <= to <= |s|
  {
    to > from && (if s[to - 1] == quote then !OddQuotes(s, quote, from, to - 1)
                  else OddQuotes(s, quote, from, to - 1))
  }

  /** The delimiter at k lies outside quotes: an even number of quotes of either kind precede it in
      the command. */
  predicate EndsCommand(s: string, from: nat, k: nat, delimiter: char)
    requires from <= k < |s|
  {
    s[k] == delimiter && !OddQuotes(s, '\'', from, k) && !OddQuotes(s, '"', from, k)
  }

  /** A single quote right after a double quote that closes. */
  predicate IsMissedQuote(s: string, from: nat, p: nat)
    requires from <= p && p + 1 < |s|
  {
    s[p] == '"' && OddQuotes(s, '"', from, p) && s[p + 1] == '\''
  }

  ghost predicate NoMissedQuote(s: string, from: nat, to: nat)
    requires from <= to <= |s|
  {
    forall p :: from <= p && p + 1 < to ==> !IsMissedQuote(s, from, p)
  }

  /** One round of the scan keeps both flags equal to the parities, and passes no delimiter that
      lies outside quotes. */
  lemma RoundKeepsParity(s: string, from: nat, i: nat, delimiter: char)
    requires from <= i < |s| && delimiter != '\'' && delimiter != '"'
    requires
      var p := QuoteCheck(s, i, '\'', OddQuotes(s, '\'', from, i)).at;
      p + 1 < |s| ==> !IsMissedQuote(s, from, p)
    ensures
      var first := QuoteCheck(s, i, '\'', OddQuotes(s, '\'', from, i));
      if first.at == |s| then forall k :: i <= k < |s| ==> !EndsCommand(s, from, k, delimiter)
      else
        var second := QuoteCheck(s, first.at, '"', OddQuotes(s, '"', from, i));
        && (forall k :: i <= k < second.at ==> !EndsCommand(s, from, k, delimiter))
        && (second.at < |s| ==>
              && (EndsCommand(s, from, second.at, delimiter) <==>
                    !first.open && !second.open && s[second.at] == delimiter)
              && first.open == OddQuotes(s, '\'', from, second.at + 1)
              && second.open == OddQuotes(s, '"', from, second.at + 1))
  {
    ParityNext(s, from, i);
    var first := QuoteCheck(s, i, '\'', OddQuotes(s, '\'', from, i));
    if first.at < |s| {
      ParityNext(s, from, first.at);
      var second := QuoteCheck(s, first.at, '"', OddQuotes(s, '"', from, i));
      if second.at < |s| {
        ParityNext(s, from, second.at);
      }
    }
    hide OddQuotes;
  }

  /** In particular, the flags stay at the parities. */
  lemma RoundFlags(s: string, from: nat, i: nat)
    requires from <= i < |s|
    requires
      var p := QuoteCheck(s, i, '\'', OddQuotes(s, '\'', from, i)).at;
      p + 1 < |s| ==> !IsMissedQuote(s, from, p)
    ensures
      var first := QuoteCheck(s, i, '\'', OddQuotes(s, '\'', from, i));
      first.at < |s| ==>
        var second := QuoteCheck(s, first.at, '"', OddQuotes(s, '"', from, i));
        second.at < |s| ==>
          && first.open == OddQuotes(s, '\'', from, second.at + 1)
          && second.open == OddQuotes(s, '"', from, second.at + 1)
  {
    RoundKeepsParity(s, from, i, ';');
    hide OddQuotes, QuoteCheck, EndsCommand, IsMissedQuote;
  }

  lemma ParityNext(s: string, from: nat, k: nat)
    requires from <= k < |s|
    ensures OddQuotes(s, '\'', from, k + 1) == (OddQuotes(s, '\'', from, k) != (s[k] == '\''))
    ensures OddQuotes(s, '"', from, k + 1) == (OddQuotes(s, '"', from, k) != (s[k] == '"'))
  {
  }

  /** With no missed quote, a command ends at the first delimiter outside quotes, and at no other. */
  lemma {:induction false} DelimitersOutsideQuotes(s: string, from: nat, i: nat, delimiter: char)
    requires from <= i <= |s| && NoMissedQuote(s, from, |s|)
    requires delimiter != '\'' && delimiter != '"'
    ensures
      var end := Scan(s, i, OddQuotes(s, '\'', from, i), OddQuotes(s, '"', from, i), delimiter);
      && (end.delimited ==> i <= end.at && EndsCommand(s, from, end.at, delimiter))
      && forall k :: i <= k < end.at ==> !EndsCommand(s, from, k, delimiter)
    decreases |s| - i
  {
    hide OddQuotes, QuoteCheck, EndsCommand, IsMissedQuote;
    if i < |s| {
      RoundKeepsParity(s, from, i, delimiter);
      var first := QuoteCheck(s, i, '\'', OddQuotes(s, '\'', from, i));
      if first.at < |s| {
        var second := QuoteCheck(s, first.at, '"', OddQuotes(s, '"', from, i));
        if second.at < |s| {
          DelimitersOutsideQuotes(s, from, second.at + 1, delimiter);
        }
      }
    }
  }

  /** The command that starts at or after i ends at the first delimiter outside quotes, or at the
      end of the text when there is none: any text that misses no quote, and so any text without
      double quotes. */
  lemma CommandEndsOutsideQuotes(s: string, i: nat, delimiter: char)
    requires i <= |s| && delimiter != '\'' && delimiter != '"'
    requires '"' !in s || NoMissedQuote(s, WhitespaceEnd(s, i), |s|)
    ensures
      match NextCommand(s, i, delimiter)
      case NoCommand => forall k :: i <= k < |s| ==> IsWhitespace(s[k])
      case Command(start, end, next) =>
        && (end < next <==> exists k :: start <= k < |s| && EndsCommand(s, start, k, delimiter))
        && (end < next ==> EndsCommand(s, start, end, delimiter))
        && forall k :: start <= k < end ==> !EndsCommand(s, start, k, delimiter)
  {
    var start := WhitespaceEnd(s, i);
    assert NoMissedQuote(s, start, |s|);
    CommandHere(s, i, delimiter);
    NoQuotesYet(s, start);
    DelimitersOutsideQuotes(s, start, start, delimiter);
    hide OddQuotes, EndsCommand, NextCommand, Scan, NoMissedQuote;
  }

  lemma NoQuotesYet(s: string, from: nat)
    requires from <= |s|
    ensures !OddQuotes(s, '\'', from, from) && !OddQuotes(s, '"', from, from)
  {
  }

  // ------------------------------------------------------------ exactly which texts

  lemma {:induction false} SameParity(s: string, t: string, quote: char, n: nat)
    requires n <= |s| && n <= |t| && s[..n] == t[..n]
    ensures OddQuotes(s, quote, 0, n) == OddQuotes(t, quote, 0, n)
  {
    if n > 0 {
      assert s[n - 1] == s[..n][n - 1] == t[..n][n - 1] == t[n - 1];
      assert s[..n - 1] == s[..n][..n - 1] == t[..n][..n - 1] == t[..n - 1];
      SameParity(s, t, quote, n - 1);
    }
  }

  /** A round that meets a missed quote, with the delimiter next, gets it wrong. */
  lemma MissingRound(u: string, p: nat, i: nat, d: char)
    requires |u| == p + 3 && u[p + 2] == d && d != '\'' && d != '"'
    requires i <= p && IsMissedQuote(u, 0, p)
    requires QuoteCheck(u, i, '\'', OddQuotes(u, '\'', 0, i)).at == p
    ensures Scan(u, i, OddQuotes(u, '\'', 0, i), OddQuotes(u, '"', 0, i), d).delimited
       <==> !EndsCommand(u, 0, p + 2, d)
  {
    var single, double := OddQuotes(u, '\'', 0, i), OddQuotes(u, '"', 0, i);
    ParityNext(u, 0, i);
    ParityNext(u, 0, p);
    ParityNext(u, 0, p + 1);
    ScanStep(u, i, single, double, d);
    var first := QuoteCheck(u, i, '\'', single);
    var second := QuoteCheck(u, p, '"', double);
    assert second == Checked(p + 1, false);
    ScanStep(u, p + 2, first.open, false, d);
    hide Scan, OddQuotes;
  }

  /** A round in front of the first missed quote stays in front of it. */
  lemma RoundBefore(u: string, p: nat, i: nat)
    requires i <= p && p + 1 < |u| && IsMissedQuote(u, 0, p)
    ensures
      var first := QuoteCheck(u, i, '\'', OddQuotes(u, '\'', 0, i));
      && first.at <= p
      && (first.at < p ==> QuoteCheck(u, first.at, '"', OddQuotes(u, '"', 0, i)).at < p)
  {
    ParityNext(u, 0, i);
    var first := QuoteCheck(u, i, '\'', OddQuotes(u, '\'', 0, i));
    if first.at < p {
      ParityNext(u, 0, first.at);
    }
    hide OddQuotes;
  }

  /** The scan from i on, with its flags at the parities. */
  function ScanInParity(u: string, i: nat, d: char): ScanEnd
    requires i <= |u|
  {
    Scan(u, i, OddQuotes(u, '\'', 0, i), OddQuotes(u, '"', 0, i), d)
  }

  /** A round that misses no quote and meets no delimiter leaves the flags at the parities. */
  lemma RoundGoesOn(u: string, i: nat, j: nat, k: nat, d: char)
    requires i < |u| && d != '\'' && d != '"'
    requires j == QuoteCheck(u, i, '\'', OddQuotes(u, '\'', 0, i)).at < |u|
    requires j + 1 < |u| ==> !IsMissedQuote(u, 0, j)
    requires k == QuoteCheck(u, j, '"', OddQuotes(u, '"', 0, i)).at < |u|
    requires u[k] != d
    ensures ScanInParity(u, i, d) == ScanInParity(u, k + 1, d)
  {
    hide Scan, OddQuotes, QuoteCheck, EndsCommand, IsMissedQuote;
    RoundFlags(u, 0, i);
    ScanStep(u, i, OddQuotes(u, '\'', 0, i), OddQuotes(u, '"', 0, i), d);
  }

  /** So does a round in front of the first missed quote. */
  lemma RoundMovesOn(u: string, p: nat, i: nat, d: char) returns (i': nat)
    requires |u| == p + 3 && d != '\'' && d != '"' && (forall j :: 0 <= j < p + 2 ==> u[j] != d)
    requires i <= p && IsMissedQuote(u, 0, p) && NoMissedQuote(u, 0, p + 1)
    requires QuoteCheck(u, i, '\'', OddQuotes(u, '\'', 0, i)).at != p
    ensures i < i' <= p && ScanInParity(u, i, d) == ScanInParity(u, i', d)
  {
    hide ScanInParity, OddQuotes, QuoteCheck, IsMissedQuote;
    RoundBefore(u, p, i);
    var j := QuoteCheck(u, i, '\'', OddQuotes(u, '\'', 0, i)).at;
    var k := QuoteCheck(u, j, '"', OddQuotes(u, '"', 0, i)).at;
    assert !IsMissedQuote(u, 0, j);
    RoundGoesOn(u, i, j, k, d);
    i' := k + 1;
  }

  lemma {:induction false} MissedQuoteMisleads(u: string, p: nat, i: nat, d: char)
    requires |u| == p + 3 && u[p + 2] == d && d != '\'' && d != '"' && (forall j :: 0 <= j < p + 2 ==> u[j] != d)
    requires i <= p && IsMissedQuote(u, 0, p) && NoMissedQuote(u, 0, p + 1)
    ensures ScanInParity(u, i, d).delimited <==> !EndsCommand(u, 0, p + 2, d)
    decreases p - i
  {
    hide OddQuotes, EndsCommand, NoMissedQuote, IsMissedQuote;
    if QuoteCheck(u, i, '\'', OddQuotes(u, '\'', 0, i)).at == p {
      MissingRound(u, p, i, d);
    } else {
      hide ScanInParity;
      var i' := RoundMovesOn(u, p, i, d);
      MissedQuoteMisleads(u, p, i', d);
    }
  }

  /** The delimiter put after the first n characters of t ends the command exactly when it lies
      outside quotes. */
  predicate LawHolds(t: string, n: nat, d: char)
    requires n <= |t|
  {
    Scan(t[..n] + [d], 0, false, false, d).delimited <==> EndsCommand(t[..n] + [d], 0, n, d)
  }

  lemma LawHoldsUpTo(t: string, n: nat, d: char)
    requires n <= |t| && d != '\'' && d != '"' && d !in t && NoMissedQuote(t, 0, |t|)
    ensures LawHolds(t, n, d)
  {
    var u := t[..n] + [d];
    forall p: nat | p + 1 < |u|
      ensures !IsMissedQuote(u, 0, p)
    {
      SameParity(u, t, '"', p);
      assert p + 1 < |t| ==> !IsMissedQuote(t, 0, p);
    }
    NoQuotesYet(u, 0);
    DelimitersOutsideQuotes(u, 0, 0, d);
    hide Scan, OddQuotes;
  }

  lemma LawFailsAt(t: string, p: nat, d: char)
    requires p + 1 < |t| && d != '\'' && d != '"' && d !in t
    requires IsMissedQuote(t, 0, p) && NoMissedQuote(t, 0, p + 1)
    ensures !LawHolds(t, p + 2, d)
  {
    var u := t[..p + 2] + [d];
    assert u[..p + 2] == t[..p + 2];
    SameParity(u, t, '"', p);
    forall q: nat | q + 1 < p + 1
      ensures !IsMissedQuote(u, 0, q)
    {
      SameParity(u, t, '"', q);
      assert !IsMissedQuote(t, 0, q);
    }
    NoQuotesYet(u, 0);
    MissedQuoteMisleads(u, p, 0, d);
    hide Scan, OddQuotes;
  }

  lemma {:induction false} FirstMissedQuote(t: string, n: nat) returns (p: nat)
    requires n <= |t| && !NoMissedQuote(t, 0, n)
    ensures p + 1 < n && IsMissedQuote(t, 0, p) && NoMissedQuote(t, 0, p + 1)
  {
    hide IsMissedQuote;
    if NoMissedQuote(t, 0, n - 1) {
      p := n - 2;
    } else {
      p := FirstMissedQuote(t, n - 1);
    }
  }

  /** The rule that a delimiter ends a command exactly when an even number of quotes precede it
      holds all along a text if and only if no single quote in it directly follows a double quote
      that closes: the splitter never looks at such a quote. */
  lemma QuotingLawIff(t: string, d: char)
    requires d != '\'' && d != '"' && d !in t
    ensures (forall n: nat :: n <= |t| ==> LawHolds(t, n, d)) <==> NoMissedQuote(t, 0, |t|)
  {
    hide LawHolds, IsMissedQuote;
    if NoMissedQuote(t, 0, |t|) {
      forall n: nat | n <= |t| {
        LawHoldsUpTo(t, n, d);
      }
    } else {
      var p := FirstMissedQuote(t, |t|);
      LawFailsAt(t, p, d);
    }
  }

  /** For example: the semicolon inside the single quotes ends the command. */
  lemma QuotingLawExample()
    ensures Scan("\"a\"'b;c'", 0, false, false, ';') == ScanEnd(5, true)
    ensures OddQuotes("\"a\"'b;c'", '\'', 0, 5)
  {
    var s := "\"a\"'b;c'";
    assert s[0] == '"' && s[1] == 'a' && s[2] == '"' && s[3] == '\'' && s[4] == 'b' && s[5] == ';';
    ParityNext(s, 0, 0);
    ParityNext(s, 0, 1);
    ParityNext(s, 0, 2);
    ParityNext(s, 0, 3);
    ParityNext(s, 0, 4);
    NoQuotesYet(s, 0);
    hide OddQuotes;
    ExampleScan(s);
  }

  lemma ExampleScan(s: string)
    requires |s| == 8
    requires s[0] == '"' && s[1] == 'a' && s[2] == '"' && s[3] == '\'' && s[4] == 'b' && s[5] == ';'
    ensures Scan(s, 0, false, false, ';') == ScanEnd(5, true)
  {
    ScanStep(s, 0, false, false, ';');
    ScanStep(s, 1, false, true, ';');
    ScanStep(s, 2, false, true, ';');
    ScanStep(s, 4, false, false, ';');
    ScanStep(s, 5, false, false, ';');
    hide Scan;
  }
}
