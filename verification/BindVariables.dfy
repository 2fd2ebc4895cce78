/** The bind-variable scanner of src/common/bindvariables.h: the four-state counter, the
    rewriter that puts NULL in the place of every marker, and the recogniser of a string that
    is nothing but one marker.

    The scanners are proved against LabelAt, which says what each character of a query is
    without mentioning the scanners' state variables, their lookahead protocol or their
    one-character memory. */
module BindVariables {
  import opened Characters

  datatype Kind = QuestionMark | Colon | AtSign | DollarSign

  datatype Kinds = Kinds(questionmark: bool, colon: bool, atsign: bool, dollarsign: bool) {
    predicate Has(k: Kind) {
      match k
      case QuestionMark => questionmark
      case Colon => colon
      case AtSign => atsign
      case DollarSign => dollarsign
    }
  }

  function Only(k: Kind): Kinds {
    Kinds(k.QuestionMark?, k.Colon?, k.AtSign?, k.DollarSign?)
  }

  function MarkerChar(k: Kind): char {
    match k
    case QuestionMark => '?'
    case Colon => ':'
    case AtSign => '@'
    case DollarSign => '$'
  }

  // ---------------------------------------------------------------- the source's predicates

  predicate BeforeBindVariable(c: char) {
    || c == ' ' || c == '\t' || c == '\n' || c == '\r'
    || c == '=' || c == '<' || c == '>' || c == ',' || c == '('
    || c == '+' || c == '-' || c == '*' || c == '/' || c == '%'
    || c == '|' || c == '&' || c == '!' || c == '~' || c == '^'
  }

  predicate IsBindDelimiter(q: string, i: nat, kinds: Kinds) {
    || (kinds.questionmark && At(q, i) == '?')
    || (kinds.colon && At(q, i) == ':' && At(q, i + 1) != '=')
    || (kinds.atsign && At(q, i) == '@' && At(q, i + 1) != '@')
    || (kinds.dollarsign && At(q, i) == '$')
  }

  predicate IsBindVariableNameCharacter(c: char) {
    IsAlphanumeric(c) || c == '_' || c == '$' || c == '#'
  }

  predicate EndsBindVariable(c: char) {
    || c == ' ' || c == '\t' || c == '\n' || c == '\r' || c == ',' || c == ')'
    || c == ';' || c == '=' || c == '<' || c == '>' || c == '!'
  }

  predicate AfterBindVariable(q: string, i: nat) {
    && !IsBindVariableNameCharacter(At(q, i))
    && (EndsBindVariable(At(q, i)) || (At(q, i) == ':' && At(q, i + 1) == '='))
  }

  // ------------------------------------------------------- what each character of a query is

  /** Text outside quotes, text inside quotes (the closing quote included), the delimiter that
      starts a marker, and the rest of a marker. */
  datatype Label = Plain | Quoted | Head | Body

  /** True iff an odd number of backslashes runs up to position i. */
  predicate OddBackslashes(q: string, i: nat)
    requires i <= |q|
  {
    i > 0 && q[i - 1] == '\\' && !OddBackslashes(q, i - 1)
  }

  /** The label of position i, decided by the label and the character before it. */
  function LabelAt(q: string, kinds: Kinds, backslash: bool, i: nat): Label
    requires i <= |q|
  {
    if i == 0 then Plain else
    match LabelAt(q, kinds, backslash, i - 1)
    case Plain =>
      if q[i - 1] == '\'' then Quoted
      else if BeforeBindVariable(q[i - 1]) && IsBindDelimiter(q, i, kinds) then Head
      else Plain
    case Quoted =>
      if q[i - 1] == '\'' && !(backslash && OddBackslashes(q, i - 1)) then Plain else Quoted
    case _ =>
      if AfterBindVariable(q, i) then Plain else Body
  }

  /** The number of markers of kind k among the first n characters. */
  function Markers(q: string, kinds: Kinds, backslash: bool, k: Kind, n: nat): nat
    requires n <= |q|
  {
    if n == 0 then 0 else
    Markers(q, kinds, backslash, k, n - 1)
    + if LabelAt(q, kinds, backslash, n - 1) == Head && q[n - 1] == MarkerChar(k) then 1 else 0
  }

  /** What the first n characters become when every marker is replaced. */
  function Replaced(q: string, kinds: Kinds, backslash: bool, n: nat): string
    requires n <= |q|
  {
    if n == 0 then "" else
    Replaced(q, kinds, backslash, n - 1) +
    match LabelAt(q, kinds, backslash, n - 1)
    case Head => "NULL"
    case Body => ""
    case _ => [q[n - 1]]
  }

  const UINT16: nat := 0x1_0000

  /** The counter's answer: dollar signs, then question marks, then colons, then at signs, each
      a 16 bit counter, and the first one that isn't 0. */
  function Counted(q: string, kinds: Kinds, backslash: bool): nat {
    var d := Markers(q, kinds, backslash, DollarSign, |q|) % UINT16;
    var m := Markers(q, kinds, backslash, QuestionMark, |q|) % UINT16;
    var c := Markers(q, kinds, backslash, Colon, |q|) % UINT16;
    var a := Markers(q, kinds, backslash, AtSign, |q|) % UINT16;
    if d != 0 then d else if m != 0 then m else if c != 0 then c else a
  }

  function Chosen(q: string, kinds: Kinds, backslash: bool): Option<Kind> {
    if kinds.dollarsign && Counted(q, Only(DollarSign), backslash) != 0 then Some(DollarSign)
    else if kinds.questionmark && Counted(q, Only(QuestionMark), backslash) != 0 then Some(QuestionMark)
    else if kinds.colon && Counted(q, Only(Colon), backslash) != 0 then Some(Colon)
    else if kinds.atsign && Counted(q, Only(AtSign), backslash) != 0 then Some(AtSign)
    else None
  }

  /** There are markers of the kind, and their number isn't lost in 16 bits. */
  predicate IsCounted(q: string, k: Kind, backslash: bool) {
    Markers(q, Only(k), backslash, k, |q|) % UINT16 != 0
  }

  /** The kinds that are preferred to a kind. */
  function Preferred(k: Kind): set<Kind> {
    match k
    case DollarSign => {}
    case QuestionMark => {DollarSign}
    case Colon => {DollarSign, QuestionMark}
    case AtSign => {DollarSign, QuestionMark, Colon}
  }

  /** It is enabled and counted, and no kind that is preferred to it is. */
  predicate IsFirstCounted(q: string, kinds: Kinds, k: Kind, backslash: bool) {
    && kinds.Has(k) && IsCounted(q, k, backslash)
    && forall other :: other in Preferred(k) && kinds.Has(other) ==> !IsCounted(q, other, backslash)
  }

  function Rewritten(q: string, kinds: Kinds, backslash: bool): string {
    match Chosen(q, kinds, backslash)
    case None => q
    case Some(k) => Replaced(q, Only(k), backslash, |q|)
  }

  // ---------------------------------------------------------------- the scanners

  datatype ParseState = InQuery | InQuotes | BeforeBind | InBind

  function Rank(s: ParseState): nat {
    match s
    case BeforeBind => 2
    case InBind => 1
    case _ => 0
  }

  /** prev after the character c has been consumed */
  function NextPrev(c: char, prev: char): char {
    if c == '\\' && prev == '\\' then NUL else c
  }

  /** What the scanner's variables mean.  entered marks the moment between recognising a
      marker's delimiter and consuming it. */
  ghost predicate Agrees(q: string, kinds: Kinds, backslash: bool,
                         state: ParseState, i: nat, prev: char, entered: bool)
  {
    && i <= |q|
    && (prev == '\\' <==> OddBackslashes(q, i))
    && (entered ==> state == InBind && i < |q| && LabelAt(q, kinds, backslash, i) == Head)
    && match state
       case InQuery => LabelAt(q, kinds, backslash, i) == Plain
       case InQuotes => LabelAt(q, kinds, backslash, i) == Quoted
       case BeforeBind => i > 0 && LabelAt(q, kinds, backslash, i - 1) == Plain && BeforeBindVariable(q[i - 1])
       case InBind => entered || (i > 0 && LabelAt(q, kinds, backslash, i - 1) in {Head, Body})
  }

  /** How much of the query the scanner has accounted for. */
  ghost function Done(i: nat, entered: bool): nat {
    if entered then i + 1 else i
  }

  ghost predicate Tallied(q: string, kinds: Kinds, backslash: bool, n: nat, m: nat, c: nat, a: nat, d: nat)
    requires n <= |q|
  {
    && m == Markers(q, kinds, backslash, QuestionMark, n) % UINT16
    && c == Markers(q, kinds, backslash, Colon, n) % UINT16
    && a == Markers(q, kinds, backslash, AtSign, n) % UINT16
    && d == Markers(q, kinds, backslash, DollarSign, n) % UINT16
  }

  function StateAfter(c: char, state: ParseState, prev: char, backslash: bool): ParseState {
    match state
    case InQuery => if BeforeBindVariable(c) then BeforeBind else if c == '\'' then InQuotes else InQuery
    case InQuotes => if c == '\'' && (!backslash || prev != '\\') then InQuery else InQuotes
    case _ => state
  }

  /** Consuming a character of text keeps the scanner's variables meaningful. */
  lemma TextConsumed(q: string, kinds: Kinds, backslash: bool, state: ParseState, i: nat, prev: char)
    requires i < |q| && (state == InQuery || state == InQuotes)
    requires Agrees(q, kinds, backslash, state, i, prev, false)
    ensures Agrees(q, kinds, backslash, StateAfter(q[i], state, prev, backslash), i + 1, NextPrev(q[i], prev), false)
    ensures LabelAt(q, kinds, backslash, i) != Head
    ensures LabelAt(q, kinds, backslash, i) != Body
  {
  }

  /** So does consuming a character of a marker. */
  lemma MarkerConsumed(q: string, kinds: Kinds, backslash: bool, i: nat, prev: char, entered: bool)
    requires i < |q| && Agrees(q, kinds, backslash, InBind, i, prev, entered)
    requires !AfterBindVariable(q, i)
    ensures Agrees(q, kinds, backslash, InBind, i + 1, NextPrev(q[i], prev), false)
    ensures !entered ==> LabelAt(q, kinds, backslash, i) == Body
  {
  }

  lemma MarkerEnded(q: string, kinds: Kinds, backslash: bool, i: nat, prev: char, entered: bool)
    requires i < |q| && Agrees(q, kinds, backslash, InBind, i, prev, entered)
    requires AfterBindVariable(q, i)
    ensures !entered && Agrees(q, kinds, backslash, InQuery, i, prev, false)
  {
    if entered {
      HeadIsDelimiter(q, kinds, backslash, i);
    }
  }

  lemma MarkerDecided(q: string, kinds: Kinds, backslash: bool, i: nat, prev: char)
    requires i < |q| && Agrees(q, kinds, backslash, BeforeBind, i, prev, false)
    ensures IsBindDelimiter(q, i, kinds) ==> Agrees(q, kinds, backslash, InBind, i, prev, true)
    ensures !IsBindDelimiter(q, i, kinds) ==> Agrees(q, kinds, backslash, InQuery, i, prev, false)
  {
  }

  lemma TallyUnchanged(q: string, kinds: Kinds, backslash: bool, n: nat, m: nat, c: nat, a: nat, d: nat)
    requires n < |q| && Tallied(q, kinds, backslash, n, m, c, a, d)
    requires LabelAt(q, kinds, backslash, n) != Head
    ensures Tallied(q, kinds, backslash, n + 1, m, c, a, d)
  {
  }

  lemma Started(q: string, kinds: Kinds, backslash: bool)
    ensures Agrees(q, kinds, backslash, InQuery, 0, NUL, false)
    ensures Tallied(q, kinds, backslash, 0, 0, 0, 0, 0)
  {
  }

  lemma Finished(q: string, kinds: Kinds, backslash: bool, state: ParseState, i: nat, prev: char, entered: bool,
                 m: nat, c: nat, a: nat, d: nat)
    requires Agrees(q, kinds, backslash, state, i, prev, entered) && i >= |q|
    requires Tallied(q, kinds, backslash, Done(i, entered), m, c, a, d)
    ensures Counted(q, kinds, backslash) == if d != 0 then d else if m != 0 then m else if c != 0 then c else a
  {
  }

  lemma OneMore(x: nat)
    ensures (x % UINT16 + 1) % UINT16 == (x + 1) % UINT16
  {
  }

  function Bumped(x: nat, bump: bool): nat {
    if bump then (x + 1) % UINT16 else x
  }

  lemma TallyRaised(q: string, kinds: Kinds, backslash: bool, n: nat, m: nat, c: nat, a: nat, d: nat, ch: char)
    requires n < |q| && Tallied(q, kinds, backslash, n, m, c, a, d)
    requires LabelAt(q, kinds, backslash, n) == Head && ch == q[n]
    ensures Tallied(q, kinds, backslash, n + 1,
                    Bumped(m, ch == '?'), Bumped(c, ch == ':'), Bumped(a, ch == '@'), Bumped(d, ch == '$'))
  {
    OneMore(Markers(q, kinds, backslash, QuestionMark, n));
    OneMore(Markers(q, kinds, backslash, Colon, n));
    OneMore(Markers(q, kinds, backslash, AtSign, n));
    OneMore(Markers(q, kinds, backslash, DollarSign, n));
  }

  method CountBindVariables(query: Option<string>, kinds: Kinds, backslash: bool) returns (count: nat)
    ensures count == match query case None => 0 case Some(q) => Counted(q, kinds, backslash)
  {
    hide LabelAt, Markers, Agrees, Tallied, BeforeBindVariable, AfterBindVariable;
    if query.None? {
      return 0;
    }
    var q := query.value;

    var questionmarkcount: nat, coloncount: nat := 0, 0;
    var atsigncount: nat, dollarsigncount: nat := 0, 0;
    var state := InQuery;
    var i := 0;
    var prev := NUL;
    ghost var entered := false;
    var first := true;
    Started(q, kinds, backslash);
    while first || i < |q|
      invariant i <= if |q| == 0 then 1 else |q|
      invariant entered ==> state == InBind && i < |q|
      invariant first ==> i == 0 && state == InQuery
      invariant |q| == 0 ==> questionmarkcount == coloncount == atsigncount == dollarsigncount == 0
      invariant |q| > 0 ==>
        && Agrees(q, kinds, backslash, state, i, prev, entered)
        && Tallied(q, kinds, backslash, Done(i, entered),
                   questionmarkcount, coloncount, atsigncount, dollarsigncount)
      decreases first, |q| - i, Rank(state)
    {
      first := false;
      var c := At(q, i);

      if state == InQuery {
        if |q| > 0 {
          TextConsumed(q, kinds, backslash, state, i, prev);
          TallyUnchanged(q, kinds, backslash, i, questionmarkcount, coloncount, atsigncount, dollarsigncount);
        }
        if c == '\'' {
          state := InQuotes;
        }
        if BeforeBindVariable(c) {
          state := BeforeBind;
        }
        prev := NextPrev(c, prev);
        i := i + 1;
      } else if state == InQuotes {
        TextConsumed(q, kinds, backslash, state, i, prev);
        TallyUnchanged(q, kinds, backslash, i, questionmarkcount, coloncount, atsigncount, dollarsigncount);
        if c == '\'' && (!backslash || prev != '\\') {
          state := InQuery;
        }
        prev := NextPrev(c, prev);
        i := i + 1;
      } else if state == BeforeBind {
        MarkerDecided(q, kinds, backslash, i, prev);
        if IsBindDelimiter(q, i, kinds) {
          TallyRaised(q, kinds, backslash, i, questionmarkcount, coloncount, atsigncount, dollarsigncount, c);
        }
        if kinds.questionmark && IsBindDelimiter(q, i, Only(QuestionMark)) {
          questionmarkcount := (questionmarkcount + 1) % UINT16;
          state := InBind;
          entered := true;
        } else if kinds.colon && IsBindDelimiter(q, i, Only(Colon)) {
          coloncount := (coloncount + 1) % UINT16;
          state := InBind;
          entered := true;
        } else if kinds.atsign && IsBindDelimiter(q, i, Only(AtSign)) {
          atsigncount := (atsigncount + 1) % UINT16;
          state := InBind;
          entered := true;
        } else if kinds.dollarsign && IsBindDelimiter(q, i, Only(DollarSign)) {
          dollarsigncount := (dollarsigncount + 1) % UINT16;
          state := InBind;
          entered := true;
        } else {
          state := InQuery;
        }
      } else {
        if AfterBindVariable(q, i) {
          MarkerEnded(q, kinds, backslash, i, prev, entered);
          state := InQuery;
        } else {
          MarkerConsumed(q, kinds, backslash, i, prev, entered);
          if !entered {
            TallyUnchanged(q, kinds, backslash, i, questionmarkcount, coloncount, atsigncount, dollarsigncount);
          }
          prev := NextPrev(c, prev);
          i := i + 1;
          entered := false;
        }
      }
    }

    if |q| > 0 {
      Finished(q, kinds, backslash, state, i, prev, entered,
               questionmarkcount, coloncount, atsigncount, dollarsigncount);
    }
    if dollarsigncount != 0 {
      return dollarsigncount;
    }
    if questionmarkcount != 0 {
      return questionmarkcount;
    }
    if coloncount != 0 {
      return coloncount;
    }
    if atsigncount != 0 {
      return atsigncount;
    }
    return 0;
  }

  method SubstituteNullForBindVariables(query: Option<string>, kinds: Kinds, backslash: bool,
                                        output: StringBuffer?) returns (count: nat)
    modifies output
    ensures query.None? || query.value == "" || output == null ==>
      count == 0 && (output != null ==> output.text == old(output.text))
    ensures query.Some? && query.value != "" && output != null ==>
      && output.text == old(output.text) + Rewritten(query.value, kinds, backslash)
      && count == match Chosen(query.value, kinds, backslash)
                  case None => 0
                  case Some(k) => Counted(query.value, Only(k), backslash)
    ensures query.Some? && query.value != "" && output != null ==>
      && (forall k :: IsFirstCounted(query.value, kinds, k, backslash) ==>
            && output.text == old(output.text) + Replaced(query.value, Only(k), backslash, |query.value|)
            && count == Markers(query.value, Only(k), backslash, k, |query.value|) % UINT16)
      && ((forall k :: kinds.Has(k) ==> !IsCounted(query.value, k, backslash)) ==>
            output.text == old(output.text) + query.value && count == 0)
  {
    if query.None? || query.value == "" || output == null {
      return 0;
    }
    hide Markers, Replaced, Counted, IsFirstCounted;
    var q := query.value;

    var chosen := None;
    var n := 0;
    if kinds.dollarsign {
      n := CountBindVariables(query, Only(DollarSign), backslash);
      if n != 0 {
        chosen := Some(DollarSign);
      }
    }
    if n == 0 && kinds.questionmark {
      n := CountBindVariables(query, Only(QuestionMark), backslash);
      if n != 0 {
        chosen := Some(QuestionMark);
      }
    }
    if n == 0 && kinds.colon {
      n := CountBindVariables(query, Only(Colon), backslash);
      if n != 0 {
        chosen := Some(Colon);
      }
    }
    if n == 0 && kinds.atsign {
      n := CountBindVariables(query, Only(AtSign), backslash);
      if n != 0 {
        chosen := Some(AtSign);
      }
    }
    assert chosen == Chosen(q, kinds, backslash);
    FirstCountedIsChosen(q, kinds, backslash);
    if chosen.None? {
      output.Append(q);
      return 0;
    }
    OneKindCounted(q, chosen.value, backslash);
    count := SubstituteOneKind(q, chosen.value, backslash, output);
  }

  /** What the rewriter has produced once it has accounted for n characters. */
  ghost predicate Written(q: string, k: Kind, backslash: bool, n: nat, done: string, count: nat)
    requires n <= |q|
  {
    && done == Replaced(q, Only(k), backslash, n)
    && count == Markers(q, Only(k), backslash, k, n) % UINT16
  }

  lemma WritingStarted(q: string, k: Kind, backslash: bool)
    ensures Written(q, k, backslash, 0, "", 0)
  {
  }

  lemma WritingFinished(q: string, k: Kind, backslash: bool, state: ParseState, i: nat, prev: char, entered: bool,
                        done: string, count: nat)
    requires Agrees(q, Only(k), backslash, state, i, prev, entered) && i >= |q|
    requires Written(q, k, backslash, Done(i, entered), done, count)
    ensures done == Replaced(q, Only(k), backslash, |q|)
    ensures count == Markers(q, Only(k), backslash, k, |q|) % UINT16
  {
  }

  lemma TextWritten(q: string, k: Kind, backslash: bool, n: nat, done: string, count: nat)
    requires n < |q| && Written(q, k, backslash, n, done, count)
    ensures LabelAt(q, Only(k), backslash, n) in {Plain, Quoted} ==>
      Written(q, k, backslash, n + 1, done + [q[n]], count)
    ensures LabelAt(q, Only(k), backslash, n) == Body ==> Written(q, k, backslash, n + 1, done, count)
  {
  }

  lemma MarkerWritten(q: string, k: Kind, backslash: bool, n: nat, done: string, count: nat)
    requires n < |q| && Written(q, k, backslash, n, done, count)
    requires LabelAt(q, Only(k), backslash, n) == Head
    ensures Written(q, k, backslash, n + 1, done + "NULL", (count + 1) % UINT16)
  {
    HeadIsDelimiter(q, Only(k), backslash, n);
    NextIsHead(q, k, backslash, n);
    OneMore(Markers(q, Only(k), backslash, k, n));
    hide LabelAt, Markers, Replaced, IsBindDelimiter;
  }

  lemma NextIsHead(q: string, k: Kind, backslash: bool, n: nat)
    requires n < |q| && LabelAt(q, Only(k), backslash, n) == Head && IsBindDelimiter(q, n, Only(k))
    ensures Replaced(q, Only(k), backslash, n + 1) == Replaced(q, Only(k), backslash, n) + "NULL"
    ensures Markers(q, Only(k), backslash, k, n + 1) == Markers(q, Only(k), backslash, k, n) + 1
  {
    hide LabelAt;
  }

  /** The rewriter's own scan, once the kind is known. */
  method SubstituteOneKind(q: string, k: Kind, backslash: bool, output: StringBuffer) returns (count: nat)
    requires q != ""
    modifies output
    ensures output.text == old(output.text) + Replaced(q, Only(k), backslash, |q|)
    ensures count == Markers(q, Only(k), backslash, k, |q|) % UINT16
  {
    hide LabelAt, Markers, Replaced, Agrees, Written, BeforeBindVariable, AfterBindVariable;
    count := 0;
    var state := InQuery;
    var i := 0;
    var prev := NUL;
    ghost var entered := false;
    ghost var done := "";
    Started(q, Only(k), backslash);
    WritingStarted(q, k, backslash);
    while i < |q|
      invariant i <= |q|
      invariant entered ==> state == InBind && i < |q|
      invariant Agrees(q, Only(k), backslash, state, i, prev, entered)
      invariant output.text == old(output.text) + done
      invariant Written(q, k, backslash, Done(i, entered), done, count)
      decreases |q| - i, Rank(state)
    {
      var c := q[i];
      if state == InQuery || state == InQuotes {
        TextConsumed(q, Only(k), backslash, state, i, prev);
        TextWritten(q, k, backslash, i, done, count);
        done := done + [c];
      }

      if state == InQuery {
        if c == '\'' {
          state := InQuotes;
        }
        if BeforeBindVariable(c) {
          state := BeforeBind;
        }
        output.Append([c]);
        prev := NextPrev(c, prev);
        i := i + 1;
      } else if state == InQuotes {
        if c == '\'' && (!backslash || prev != '\\') {
          state := InQuery;
        }
        output.Append([c]);
        prev := NextPrev(c, prev);
        i := i + 1;
      } else if state == BeforeBind {
        MarkerDecided(q, Only(k), backslash, i, prev);
        if IsBindDelimiter(q, i, Only(k)) {
          MarkerWritten(q, k, backslash, i, done, count);
          done := done + "NULL";
          output.Append("NULL");
          count := (count + 1) % UINT16;
          state := InBind;
          entered := true;
        } else {
          state := InQuery;
        }
      } else {
        if AfterBindVariable(q, i) {
          MarkerEnded(q, Only(k), backslash, i, prev, entered);
          state := InQuery;
        } else {
          MarkerConsumed(q, Only(k), backslash, i, prev, entered);
          if !entered {
            TextWritten(q, k, backslash, i, done, count);
          }
          prev := NextPrev(c, prev);
          i := i + 1;
          entered := false;
        }
      }
    }
    WritingFinished(q, k, backslash, state, i, prev, entered, done, count);
  }

  /** Every marker has an enabled kind. */
  lemma {:induction false} HeadIsDelimiter(q: string, kinds: Kinds, backslash: bool, i: nat)
    requires i < |q| && LabelAt(q, kinds, backslash, i) == Head
    ensures IsBindDelimiter(q, i, kinds)
    ensures i > 0 && LabelAt(q, kinds, backslash, i - 1) == Plain && BeforeBindVariable(q[i - 1])
  {
  }

  lemma {:induction false} OtherKindsAbsent(q: string, k: Kind, backslash: bool, other: Kind, n: nat)
    requires n <= |q| && other != k
    ensures Markers(q, Only(k), backslash, other, n) == 0
  {
    if n > 0 {
      OtherKindsAbsent(q, k, backslash, other, n - 1);
      if LabelAt(q, Only(k), backslash, n - 1) == Head {
        HeadIsDelimiter(q, Only(k), backslash, n - 1);
      }
    }
  }

  /** With one kind enabled the counter's answer is that kind's count. */
  lemma OneKindCounted(q: string, k: Kind, backslash: bool)
    ensures Counted(q, Only(k), backslash) == Markers(q, Only(k), backslash, k, |q|) % UINT16
  {
    forall other: Kind | other != k {
      OtherKindsAbsent(q, k, backslash, other, |q|);
    }
  }

  lemma CountedIff(q: string, k: Kind, backslash: bool)
    ensures Counted(q, Only(k), backslash) != 0 <==> IsCounted(q, k, backslash)
  {
    OneKindCounted(q, k, backslash);
    hide Counted, Markers;
  }

  /** The kind that is rewritten is the first one that is counted: dollar signs are preferred to question
      marks, those to colons, and those to at signs. */
  lemma FirstCountedIsChosen(q: string, kinds: Kinds, backslash: bool)
    ensures forall k :: IsFirstCounted(q, kinds, k, backslash) <==> Chosen(q, kinds, backslash) == Some(k)
    ensures Chosen(q, kinds, backslash).None? <==> forall k :: kinds.Has(k) ==> !IsCounted(q, k, backslash)
  {
    CountedIff(q, DollarSign, backslash);
    CountedIff(q, QuestionMark, backslash);
    CountedIff(q, Colon, backslash);
    CountedIff(q, AtSign, backslash);
    hide Counted, IsCounted;
    var chosen := Chosen(q, kinds, backslash);
    if chosen.Some? {
      assert kinds.Has(chosen.value) && IsCounted(q, chosen.value, backslash);
    } else {
      forall k: Kind | kinds.Has(k) ensures !IsCounted(q, k, backslash) {
        match k
        case DollarSign =>
        case QuestionMark =>
        case Colon =>
        case AtSign =>
      }
    }
  }
}
