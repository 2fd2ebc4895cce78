/** Where markers start and end, character by character, and what enabling several kinds at once does. */
module BindVariableKinds {
  import opened Characters
  import opened BindVariables
  import opened BindVariableTheorems

  // ------------------------------------------------------------ markers and literals

  /** Outside quotes, a marker starts at exactly these places: after one of the characters that may precede
      one, at an enabled delimiter, which for a colon isn't the start of :=, and for an at sign isn't the
      first of two. */
  lemma MarkerStartsIff(q: string, kinds: Kinds, backslash: bool, i: nat)
    requires 0 < i < |q|
    ensures LabelAt(q, kinds, backslash, i) == Head <==>
      && LabelAt(q, kinds, backslash, i - 1) == Plain && q[i - 1] in STARTS
      && ((kinds.questionmark && q[i] == '?') || (kinds.dollarsign && q[i] == '$')
          || (kinds.colon && q[i] == ':' && !(i + 1 < |q| && q[i + 1] == '='))
          || (kinds.atsign && q[i] == '@' && !(i + 1 < |q| && q[i + 1] == '@')))
  {
    StartsIff(q[i - 1]);
    if LabelAt(q, kinds, backslash, i) == Head {
      HeadIsDelimiter(q, kinds, backslash, i);
    }
    hide BeforeBindVariable;
  }

  /** What ends a marker is text again, and so is copied: a comma, a closing parenthesis, white space, a
      semicolon or an operator. */
  lemma EndOfMarkerIsCopied(q: string, k: Kind, backslash: bool, i: nat)
    requires 0 < i < |q| && LabelAt(q, Only(k), backslash, i - 1) in {Head, Body}
    ensures LabelAt(q, Only(k), backslash, i) == (if EndsAt(q, i) then Plain else Body)
    ensures Replaced(q, Only(k), backslash, i + 1)
         == Replaced(q, Only(k), backslash, i) + if EndsAt(q, i) then [q[i]] else ""
  {
    EndsAtIff(q, i);
    hide AfterBindVariable;
  }

  /** A string literal is quoted from its opening quote to the first quote that no odd number of backslashes
      escapes, or, if backslashes don't escape, to the first quote. */
  lemma LiteralIsQuoted(q: string, kinds: Kinds, backslash: bool, from: nat, to: nat)
    requires from < to < |q| && LabelAt(q, kinds, backslash, from) == Plain
    requires q[from] == '\'' && q[to] == '\''
    requires forall j :: from < j < to && q[j] == '\'' ==> backslash && OddBackslashes(q, j)
    requires !(backslash && OddBackslashes(q, to))
    ensures forall j :: from < j <= to ==> LabelAt(q, kinds, backslash, j) == Quoted
    ensures LabelAt(q, kinds, backslash, to + 1) == Plain
  {
    QuotedUpTo(q, kinds, backslash, from, to);
  }

  lemma {:induction false} QuotedUpTo(q: string, kinds: Kinds, backslash: bool, from: nat, to: nat)
    requires from < to <= |q| && LabelAt(q, kinds, backslash, from) == Plain && q[from] == '\''
    requires forall j :: from < j < to && q[j] == '\'' ==> backslash && OddBackslashes(q, j)
    ensures forall j :: from < j <= to ==> LabelAt(q, kinds, backslash, j) == Quoted
  {
    if from + 1 < to {
      QuotedUpTo(q, kinds, backslash, from, to - 1);
      assert LabelAt(q, kinds, backslash, to - 1) == Quoted;
    }
  }

  // ------------------------------------------------------------ one scan for all kinds

  function KindOf(c: char): Option<Kind> {
    match c
    case '?' => Some(QuestionMark)
    case ':' => Some(Colon)
    case '@' => Some(AtSign)
    case '$' => Some(DollarSign)
    case _ => None
  }

  /** The kind of the marker that position i lies in. */
  function KindAt(q: string, kinds: Kinds, backslash: bool, i: nat): Option<Kind>
    requires i <= |q|
  {
    match LabelAt(q, kinds, backslash, i)
    case Head => KindOf(At(q, i))
    case Body => if i == 0 then None else KindAt(q, kinds, backslash, i - 1)
    case _ => None
  }

  /** What a scan for kind k alone would make of position i, going by the scan for all the kinds: markers of
      other kinds are text. */
  function Seen(q: string, kinds: Kinds, backslash: bool, k: Kind, i: nat): Label
    requires i <= |q|
  {
    var here := LabelAt(q, kinds, backslash, i);
    if here in {Head, Body} && KindAt(q, kinds, backslash, i) != Some(k) then Plain else here
  }

  /** The scan for all the kinds sees what the scans for each of them see. */
  ghost predicate ScansAgree(q: string, kinds: Kinds, backslash: bool) {
    forall k, i :: kinds.Has(k) && 0 <= i <= |q| ==> LabelAt(q, Only(k), backslash, i) == Seen(q, kinds, backslash, k, i)
  }

  /** In a marker's name there is a quote, or there starts what would be a marker of another kind that's enabled. */
  ghost predicate IsClash(q: string, kinds: Kinds, backslash: bool, k: Kind, p: nat)
    requires p < |q|
  {
    && LabelAt(q, kinds, backslash, p) == Body && kinds.Has(k) && KindAt(q, kinds, backslash, p) != Some(k)
    && (q[p] == '\'' || (q[p] in STARTS && IsBindDelimiter(q, p + 1, Only(k))))
  }

  lemma DelimiterIs(q: string, kinds: Kinds, k: Kind, i: nat)
    requires kinds.Has(k)
    ensures IsBindDelimiter(q, i, Only(k)) <==> IsBindDelimiter(q, i, kinds) && KindOf(At(q, i)) == Some(k)
  {
  }

  /** A delimiter is neither a quote nor a character that a marker may start after. */
  lemma DelimiterIsNoStart(q: string, kinds: Kinds, i: nat)
    requires i < |q| && IsBindDelimiter(q, i, kinds)
    ensures q[i] != '\'' && !BeforeBindVariable(q[i])
  {
  }

  lemma NextAgrees(q: string, kinds: Kinds, backslash: bool, k: Kind, i: nat)
    requires i < |q| && kinds.Has(k) && !IsClash(q, kinds, backslash, k, i)
    requires LabelAt(q, Only(k), backslash, i) == Seen(q, kinds, backslash, k, i)
    ensures LabelAt(q, Only(k), backslash, i + 1) == Seen(q, kinds, backslash, k, i + 1)
  {
    StartsIff(q[i]);
    DelimiterIs(q, kinds, k, i + 1);
    if LabelAt(q, kinds, backslash, i) == Head {
      HeadIsDelimiter(q, kinds, backslash, i);
      DelimiterIsNoStart(q, kinds, i);
    }
    hide IsBindDelimiter, BeforeBindVariable, AfterBindVariable, OddBackslashes, KindOf;
  }

  lemma {:induction false} AgreesUpTo(q: string, kinds: Kinds, backslash: bool, k: Kind, i: nat)
    requires i <= |q| && kinds.Has(k)
    requires forall p :: 0 <= p < |q| ==> !IsClash(q, kinds, backslash, k, p)
    ensures LabelAt(q, Only(k), backslash, i) == Seen(q, kinds, backslash, k, i)
  {
    if i > 0 {
      hide IsClash, Seen, LabelAt;
      AgreesUpTo(q, kinds, backslash, k, i - 1);
      NextAgrees(q, kinds, backslash, k, i - 1);
    } else {
      FirstIsPlain(q, kinds, backslash);
      FirstIsPlain(q, Only(k), backslash);
    }
  }

  /** At a clash, what agreed stops agreeing. */
  lemma ClashDisagrees(q: string, kinds: Kinds, backslash: bool, k: Kind, p: nat)
    requires p < |q| && IsClash(q, kinds, backslash, k, p)
    ensures LabelAt(q, Only(k), backslash, p) == Seen(q, kinds, backslash, k, p) ==>
      LabelAt(q, Only(k), backslash, p + 1) != Seen(q, kinds, backslash, k, p + 1)
  {
    StartsIff(q[p]);
    hide IsBindDelimiter, BeforeBindVariable, AfterBindVariable, OddBackslashes, KindOf;
  }

  /** One scan for all the kinds sees what one scan for each kind sees, all along a query, iff no marker's name
      has a quote in it, or the start of what would be a marker of another kind that's enabled. */
  lemma ScansAgreeIff(q: string, kinds: Kinds, backslash: bool)
    ensures ScansAgree(q, kinds, backslash)
       <==> forall k, p :: 0 <= p < |q| ==> !IsClash(q, kinds, backslash, k, p)
  {
    hide LabelAt, Seen, IsClash;
    if forall k, p :: 0 <= p < |q| ==> !IsClash(q, kinds, backslash, k, p) {
      forall k, i | kinds.Has(k) && 0 <= i <= |q|
        ensures LabelAt(q, Only(k), backslash, i) == Seen(q, kinds, backslash, k, i)
      {
        AgreesUpTo(q, kinds, backslash, k, i);
      }
    } else {
      var k, p :| 0 <= p < |q| && IsClash(q, kinds, backslash, k, p);
      ClashIsEnabled(q, kinds, backslash, k, p);
      ClashDisagrees(q, kinds, backslash, k, p);
    }
  }

  lemma ClashIsEnabled(q: string, kinds: Kinds, backslash: bool, k: Kind, p: nat)
    requires p < |q| && IsClash(q, kinds, backslash, k, p)
    ensures kinds.Has(k)
  {
  }

  lemma HeadAgrees(q: string, kinds: Kinds, backslash: bool, k: Kind, i: nat)
    requires i < |q| && kinds.Has(k) && LabelAt(q, Only(k), backslash, i) == Seen(q, kinds, backslash, k, i)
    ensures LabelAt(q, kinds, backslash, i) == Head && q[i] == MarkerChar(k)
       <==> LabelAt(q, Only(k), backslash, i) == Head && q[i] == MarkerChar(k)
  {
    if LabelAt(q, Only(k), backslash, i) == Head {
      HeadIsDelimiter(q, Only(k), backslash, i);
    }
  }

  lemma {:induction false} MarkersAgree(q: string, kinds: Kinds, backslash: bool, k: Kind, n: nat)
    requires n <= |q| && kinds.Has(k) && ScansAgree(q, kinds, backslash)
    ensures Markers(q, kinds, backslash, k, n) == Markers(q, Only(k), backslash, k, n)
  {
    if n > 0 {
      MarkersAgree(q, kinds, backslash, k, n - 1);
      HeadAgrees(q, kinds, backslash, k, n - 1);
    }
    hide LabelAt, Seen;
  }

  lemma {:induction false} DisabledAreNotCounted(q: string, kinds: Kinds, backslash: bool, k: Kind, n: nat)
    requires n <= |q| && !kinds.Has(k)
    ensures Markers(q, kinds, backslash, k, n) == 0
  {
    if n > 0 {
      DisabledAreNotCounted(q, kinds, backslash, k, n - 1);
      if LabelAt(q, kinds, backslash, n - 1) == Head {
        HeadIsDelimiter(q, kinds, backslash, n - 1);
      }
    }
  }

  lemma KindAgrees(q: string, kinds: Kinds, backslash: bool, k: Kind)
    requires ScansAgree(q, kinds, backslash)
    ensures Markers(q, kinds, backslash, k, |q|) == if kinds.Has(k) then Markers(q, Only(k), backslash, k, |q|) else 0
    ensures Counted(q, Only(k), backslash) == Markers(q, Only(k), backslash, k, |q|) % UINT16
  {
    hide Markers, ScansAgree;
    if kinds.Has(k) {
      MarkersAgree(q, kinds, backslash, k, |q|);
    } else {
      DisabledAreNotCounted(q, kinds, backslash, k, |q|);
    }
    OneKindCounted(q, k, backslash);
  }

  /** Then the rewriter picks the kind that the counter counts, and so both give the same number. */
  lemma SameKindAsCounted(q: string, kinds: Kinds, backslash: bool)
    requires forall k, p :: 0 <= p < |q| ==> !IsClash(q, kinds, backslash, k, p)
    ensures Counted(q, kinds, backslash)
         == match Chosen(q, kinds, backslash) case None => 0 case Some(k) => Counted(q, Only(k), backslash)
    ensures forall k :: Chosen(q, kinds, backslash) == Some(k) ==>
      && Markers(q, kinds, backslash, k, |q|) % UINT16 != 0
      && forall other :: other in Preferred(k) ==> Markers(q, kinds, backslash, other, |q|) % UINT16 == 0
  {
    ScansAgreeIff(q, kinds, backslash);
    hide Markers, IsClash, ScansAgree;
    KindAgrees(q, kinds, backslash, DollarSign);
    KindAgrees(q, kinds, backslash, QuestionMark);
    KindAgrees(q, kinds, backslash, Colon);
    KindAgrees(q, kinds, backslash, AtSign);
  }

  const ALL := Kinds(true, true, true, true)

  /** The next character's label, and what it adds. */
  lemma NextCharacter(q: string, kinds: Kinds, backslash: bool, k: Kind, n: nat, here: Label)
    requires n < |q| && LabelAt(q, kinds, backslash, n) == here
    ensures Replaced(q, kinds, backslash, n + 1)
         == Replaced(q, kinds, backslash, n) + (match here case Head => "NULL" case Body => "" case _ => [q[n]])
    ensures Markers(q, kinds, backslash, k, n + 1)
         == Markers(q, kinds, backslash, k, n) + if here == Head && q[n] == MarkerChar(k) then 1 else 0
  {
  }

  lemma NoCharacters(q: string, kinds: Kinds, backslash: bool, k: Kind)
    ensures Replaced(q, kinds, backslash, 0) == "" && Markers(q, kinds, backslash, k, 0) == 0
  {
  }

  lemma {:induction false} NoQuestionMarkYet(q: string, backslash: bool, n: nat)
    requires n < |q| && forall i :: 0 <= i <= n ==> q[i] != '\'' && q[i] != '?'
    ensures LabelAt(q, Only(QuestionMark), backslash, n) == Plain
    ensures Replaced(q, Only(QuestionMark), backslash, n + 1) == q[..n + 1]
    ensures Markers(q, Only(QuestionMark), backslash, QuestionMark, n + 1) == 0
  {
    NoCharacters(q, Only(QuestionMark), backslash, QuestionMark);
    if n > 0 {
      NoQuestionMarkYet(q, backslash, n - 1);
    }
    hide Markers, Replaced;
    NextCharacter(q, Only(QuestionMark), backslash, QuestionMark, n, Plain);
    assert q[..n + 1] == q[..n] + [q[n]];
  }

  /** Text, and a question mark that may start a marker. */
  lemma TextThenMarker(q: string, backslash: bool, n: nat)
    requires 0 < n < |q| && (forall i :: 0 <= i < n ==> q[i] != '\'' && q[i] != '?') && q[n - 1] in STARTS && q[n] == '?'
    ensures LabelAt(q, Only(QuestionMark), backslash, n) == Head
    ensures Replaced(q, Only(QuestionMark), backslash, n + 1) == q[..n] + "NULL"
    ensures Markers(q, Only(QuestionMark), backslash, QuestionMark, n + 1) == 1
  {
    NoQuestionMarkYet(q, backslash, n - 1);
    MarkerStartsIff(q, Only(QuestionMark), backslash, n);
    hide LabelAt, Markers, Replaced;
    NextCharacter(q, Only(QuestionMark), backslash, QuestionMark, n, Head);
  }

  /** For example, the parenthesis after a marker is kept. */
  lemma ParenthesisIsKept(backslash: bool)
    ensures Rewritten("(?)", Only(QuestionMark), backslash) == "(NULL)"
  {
    var q := "(?)";
    hide LabelAt, Markers, Replaced;
    TextThenMarker(q, backslash, 1);
    EndOfMarkerIsCopied(q, QuestionMark, backslash, 2);
    NextCharacter(q, Only(QuestionMark), backslash, QuestionMark, 2, Plain);
    OneKindCounted(q, QuestionMark, backslash);
    assert q[..1] == "(";
  }

  /** With several kinds in a query the preferred one is rewritten: a question mark, and not an at sign. */
  lemma QuestionMarkIsPreferred(backslash: bool)
    ensures Rewritten(" @x,?", ALL, backslash) == " @x,NULL"
  {
    var q := " @x,?";
    hide LabelAt, Replaced, Markers;
    TextThenMarker(q, backslash, 4);
    NoDollars(q, backslash);
    FirstCountedIsChosen(q, ALL, backslash);
    assert q[..4] == " @x,";
  }

  lemma NoDollars(q: string, backslash: bool)
    requires '$' !in q
    ensures !IsCounted(q, DollarSign, backslash)
  {
    AbsentKindHasNoMarkers(q, Only(DollarSign), backslash, DollarSign, |q|);
  }

  /** Where there is a clash, the kind that is counted may not be the one that is rewritten: here that is a
      colon, with the question mark in its name, and this the question mark. */
  lemma CountedIsNotRewritten(backslash: bool)
    ensures forall k :: k in {Colon, QuestionMark, DollarSign} ==>
      Markers(" :a+?", ALL, backslash, k, 5) == if k == Colon then 1 else 0
    ensures Rewritten(" :a+?", ALL, backslash) == " :a+NULL"
  {
    var q := " :a+?";
    hide LabelAt, Replaced, Markers;
    forall k | k in {Colon, QuestionMark, DollarSign}
      ensures Markers(q, ALL, backslash, k, 5) == if k == Colon then 1 else 0
    {
      AllInName(q, backslash, k);
    }
    TextThenMarker(q, backslash, 4);
    NoDollars(q, backslash);
    FirstCountedIsChosen(q, ALL, backslash);
    assert q[..4] == " :a+";
  }

  lemma AllInName(q: string, backslash: bool, k: Kind)
    requires q == " :a+?"
    ensures Markers(q, ALL, backslash, k, 5) == if k == Colon then 1 else 0
  {
    assert LabelAt(q, ALL, backslash, 0) == Plain;
    assert LabelAt(q, ALL, backslash, 1) == Head;
    assert LabelAt(q, ALL, backslash, 2) == Body;
    assert LabelAt(q, ALL, backslash, 3) == Body;
    assert LabelAt(q, ALL, backslash, 4) == Body;
    hide LabelAt, Markers, Replaced;
    NoCharacters(q, ALL, backslash, k);
    NextCharacter(q, ALL, backslash, k, 0, Plain);
    NextCharacter(q, ALL, backslash, k, 1, Head);
    NextCharacter(q, ALL, backslash, k, 2, Body);
    NextCharacter(q, ALL, backslash, k, 3, Body);
    NextCharacter(q, ALL, backslash, k, 4, Body);
  }
}
