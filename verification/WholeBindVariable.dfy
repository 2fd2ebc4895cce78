/** The recogniser of a string that is nothing but one bind variable, and what the counter and
    the rewriter make of such a string. */
module WholeBindVariable {
  import opened Characters
  import opened BindVariables
  import opened BindVariableTheorems

  predicate IsTagCharacter(c: char) {
    IsAlphanumeric(c) || c == '_'
  }

  /** t opens with a dollar, a tag of the given length and a dollar. */
  predicate OpensWithTag(t: string, taglen: nat) {
    && taglen + 2 <= |t|
    && t[0] == '$' && t[taglen + 1] == '$'
    && forall i :: 1 <= i <= taglen ==> IsTagCharacter(t[i])
  }

  /** The delimiter t[..n] occurs at p in the text after the opening delimiter. */
  predicate ClosesAt(t: string, n: nat, p: nat)
    requires n <= |t|
  {
    n <= p && p + n <= |t| && t[p..p + n] == t[..n]
  }

  /** All of t is one dollar-quoted literal: an opening delimiter whose first recurrence is the
      end of t. */
  ghost predicate IsDollarQuoted(t: string) {
    exists taglen: nat :: OpensWithTag(t, taglen) && FirstCloseIsEnd(t, taglen + 2)
  }

  ghost predicate FirstCloseIsEnd(t: string, n: nat)
    requires n <= |t|
  {
    && ClosesAt(t, n, |t| - n)
    && forall p: nat :: p < |t| - n ==> !ClosesAt(t, n, p)
  }

  /** s is whitespace, one marker with its name in [start, start + len), and whitespace. */
  ghost predicate IsWholeMarker(s: string, kinds: Kinds, start: nat, len: nat) {
    && 0 < len && start + len <= |s|
    && (forall i :: 0 <= i < start ==> IsWhitespace(s[i]))
    && IsBindDelimiter(s, start, kinds)
    && (forall i :: start < i < start + len ==> IsBindVariableNameCharacter(s[i]))
    && (forall i :: start + len <= i < |s| ==> IsWhitespace(s[i]))
    && !IsDollarQuoted(s[start..start + len])
  }

  method IsDollarQuotedLiteral(s: string, start: nat, contentend: nat) returns (r: bool)
    requires start < contentend <= |s| && s[start] == '$'
    ensures r <==> IsDollarQuoted(s[start..contentend])
  {
    hide ClosesAt, OpensWithTag, IsDollarQuoted, IsTagCharacter;
    ghost var t := s[start..contentend];
    var tag := start + 1;
    var p := tag;
    while p < contentend && IsTagCharacter(s[p])
      invariant tag <= p <= contentend
      invariant forall i :: 1 <= i < p - start ==> IsTagCharacter(t[i])
    {
      p := p + 1;
    }
    if p >= contentend || s[p] != '$' {
      OpensNothing(t, p - start);
      return false;
    }
    var taglen := p - tag;
    var bodystart := p + 1;
    var delimlen := taglen + 2;
    Opens(t, taglen);
    ClosesLater(t, delimlen);

    var q := bodystart;
    while contentend - q >= delimlen
      invariant bodystart <= q <= contentend
      invariant forall j: nat :: j < q - start ==> !ClosesAt(t, delimlen, j)
    {
      Closing(s, start, contentend, q, taglen);
      if s[q] != '$' || s[q + delimlen - 1] != '$' {
        q := q + 1;
        continue;
      }
      var tagmatches := TagMatches(s, q + 1, tag, taglen);
      if tagmatches {
        r := q + delimlen == contentend;
        FirstClosing(t, delimlen, q - start);
        return;
      }
      q := q + 1;
    }
    NoClosing(t, delimlen);
    return false;
  }

  method TagMatches(s: string, at: nat, tag: nat, taglen: nat) returns (r: bool)
    requires at + taglen <= |s| && tag + taglen <= |s|
    ensures r <==> s[at..at + taglen] == s[tag..tag + taglen]
  {
    var i := 0;
    while i < taglen
      invariant 0 <= i <= taglen
      invariant s[at..at + i] == s[tag..tag + i]
    {
      if s[at + i] != s[tag + i] {
        assert s[at..at + taglen][i] != s[tag..tag + taglen][i];
        return false;
      }
      assert s[at..at + i + 1] == s[at..at + i] + [s[at + i]];
      assert s[tag..tag + i + 1] == s[tag..tag + i] + [s[tag + i]];
      i := i + 1;
    }
    return true;
  }

  lemma SliceOfSlice(s: string, from: nat, to: nat, i: nat, j: nat)
    requires from <= to <= |s| && i <= j && from + j <= to
    ensures s[from..to][i..j] == s[from + i..from + j]
  {
    var a, b := s[from..to][i..j], s[from + i..from + j];
    assert |a| == |b| && forall k :: 0 <= k < |a| ==> a[k] == b[k];
  }

  /** Two strings that start and end with a dollar are equal iff what is between is. */
  lemma SameBetween(a: string, b: string, n: nat)
    requires |a| == |b| == n + 2 && b[0] == '$' && b[n + 1] == '$'
    ensures a == b <==> a[0] == '$' && a[n + 1] == '$' && a[1..n + 1] == b[1..n + 1]
  {
    if a[0] == '$' && a[n + 1] == '$' && a[1..n + 1] == b[1..n + 1] {
      forall i | 0 <= i < n + 2
        ensures a[i] == b[i]
      {
        if 0 < i < n + 1 {
          assert a[1..n + 1][i - 1] == a[i] && b[1..n + 1][i - 1] == b[i];
        }
      }
    }
  }

  lemma ClosingIn(t: string, p: nat, taglen: nat)
    requires taglen + 2 <= p && p + taglen + 2 <= |t| && t[0] == '$' && t[taglen + 1] == '$'
    ensures ClosesAt(t, taglen + 2, p)
       <==> t[p] == '$' && t[p + taglen + 1] == '$' && t[p + 1..p + 1 + taglen] == t[1..1 + taglen]
  {
    SliceOfSlice(t, p, p + taglen + 2, 1, taglen + 1);
    SliceOfSlice(t, 0, taglen + 2, 1, taglen + 1);
    SameBetween(t[p..p + taglen + 2], t[..taglen + 2], taglen);
  }

  /** The closing delimiter is recognised character by character. */
  lemma Closing(s: string, start: nat, contentend: nat, q: nat, taglen: nat)
    requires start < contentend <= |s| && start + taglen + 2 <= q && q + taglen + 2 <= contentend
    requires s[start] == '$' && s[start + taglen + 1] == '$'
    ensures ClosesAt(s[start..contentend], taglen + 2, q - start) <==>
      && s[q] == '$' && s[q + taglen + 1] == '$'
      && s[q + 1..q + 1 + taglen] == s[start + 1..start + 1 + taglen]
  {
    hide ClosesAt;
    var t, p := s[start..contentend], q - start;
    assert t[0] == s[start] && t[taglen + 1] == s[start + taglen + 1];
    assert t[p] == s[q] && t[p + taglen + 1] == s[q + taglen + 1];
    ClosingIn(t, p, taglen);
    assert t[p + 1..p + 1 + taglen] == s[q + 1..q + 1 + taglen] by {
      SliceOfSlice(s, start, contentend, p + 1, p + 1 + taglen);
    }
    assert t[1..1 + taglen] == s[start + 1..start + 1 + taglen] by {
      SliceOfSlice(s, start, contentend, 1, 1 + taglen);
    }
  }

  lemma FirstClosing(t: string, n: nat, p: nat)
    requires n >= 2 && OpensWithTag(t, n - 2) && ClosesAt(t, n, p)
    requires forall j: nat :: j < p ==> !ClosesAt(t, n, j)
    ensures IsDollarQuoted(t) <==> p + n == |t|
  {
    assert FirstCloseIsEnd(t, n) <==> p == |t| - n;
    forall m: nat | OpensWithTag(t, m)
      ensures m == n - 2
    {
    }
  }

  lemma NoClosing(t: string, n: nat)
    requires n >= 2 && OpensWithTag(t, n - 2)
    requires forall j: nat :: j + n <= |t| ==> !ClosesAt(t, n, j)
    ensures !IsDollarQuoted(t)
  {
    assert !ClosesAt(t, n, |t| - n);
    assert !FirstCloseIsEnd(t, n);
    forall m: nat | OpensWithTag(t, m)
      ensures m == n - 2
    {
    }
  }

  lemma ClosesLater(t: string, n: nat)
    requires n <= |t|
    ensures forall j: nat :: j < n ==> !ClosesAt(t, n, j)
  {
  }

  /** A run of tag characters that isn't followed by a dollar opens nothing. */
  lemma OpensNothing(t: string, m: nat)
    requires 1 <= m <= |t| && (forall i :: 1 <= i < m ==> IsTagCharacter(t[i]))
    requires m < |t| ==> !IsTagCharacter(t[m]) && t[m] != '$'
    ensures !IsDollarQuoted(t)
  {
    forall n: nat
      ensures !OpensWithTag(t, n)
    {
    }
  }

  lemma Opens(t: string, taglen: nat)
    requires taglen + 2 <= |t| && t[0] == '$' && t[taglen + 1] == '$'
    requires forall i :: 1 <= i <= taglen ==> IsTagCharacter(t[i])
    ensures OpensWithTag(t, taglen)
  {
  }

  /** The marker's position and length, or None.  A C string holds no NUL. */
  method FindWholeBindVariable(str: Option<string>, kinds: Kinds) returns (r: Option<(nat, nat)>)
    requires str.Some? ==> NUL !in str.value
    ensures str.None? ==> r.None?
    ensures str.Some? && r.Some? ==> IsWholeMarker(str.value, kinds, r.value.0, r.value.1)
    ensures str.Some? && r.None? ==> forall b: nat, n: nat :: !IsWholeMarker(str.value, kinds, b, n)
  {
    if str.None? {
      return None;
    }
    var s := str.value;
    NulIsOutside();
    hide IsWholeMarker, IsDollarQuoted, IsWhitespace, IsBindVariableNameCharacter;

    var start := 0;
    while IsWhitespace(At(s, start))
      invariant start <= |s|
      invariant forall i :: 0 <= i < start ==> IsWhitespace(s[i])
      decreases |s| - start
    {
      start := start + 1;
    }
    if !IsBindDelimiter(s, start, kinds) {
      NoMarkerThere(s, kinds, start);
      return None;
    }
    DelimiterIsNoSpace(s, start, kinds);

    var strend := start;
    while At(s, strend) != NUL
      invariant start <= strend <= |s|
      decreases |s| - strend
    {
      strend := strend + 1;
    }
    NulIsTheEnd(s, strend);
    var contentend := strend;
    while contentend > start && IsWhitespace(s[contentend - 1])
      invariant start < contentend <= |s|
      invariant forall i :: contentend <= i < |s| ==> IsWhitespace(s[i])
    {
      contentend := contentend - 1;
    }

    if s[start] == '$' {
      var literal := IsDollarQuotedLiteral(s, start, contentend);
      if literal {
        NoMarkerInDollars(s, kinds, start, contentend);
        return None;
      }
    }
    assert !IsDollarQuoted(s[start..contentend]);

    var p := start + 1;
    while IsBindVariableNameCharacter(At(s, p))
      invariant start < p <= |s|
      invariant forall i :: start < i < p ==> IsBindVariableNameCharacter(s[i])
      decreases |s| - p
    {
      p := p + 1;
    }
    var end := p;
    while IsWhitespace(At(s, p))
      invariant end <= p <= |s|
      invariant forall i :: end <= i < p ==> IsWhitespace(s[i])
      decreases |s| - p
    {
      p := p + 1;
    }
    if At(s, p) != NUL {
      NoMarkerBeforeText(s, kinds, start, end, p);
      return None;
    }
    NulIsTheEnd(s, p);
    MarkerFound(s, kinds, start, end, contentend);
    return Some((start, end - start));
  }

  /** The terminator ends every run. */
  lemma NulIsOutside()
    ensures !IsWhitespace(NUL) && !IsBindVariableNameCharacter(NUL)
  {
  }

  lemma DelimiterIsNoSpace(s: string, start: nat, kinds: Kinds)
    requires IsBindDelimiter(s, start, kinds)
    ensures start < |s| && !IsWhitespace(s[start])
  {
  }

  lemma NameIsNoSpace(c: char)
    requires IsBindVariableNameCharacter(c)
    ensures !IsWhitespace(c)
  {
  }

  /** What comes first isn't a marker. */
  lemma NoMarkerThere(s: string, kinds: Kinds, start: nat)
    requires start <= |s| && !IsWhitespace(At(s, start)) && !IsBindDelimiter(s, start, kinds)
    requires forall i :: 0 <= i < start ==> IsWhitespace(s[i])
    ensures forall b: nat, n: nat :: !IsWholeMarker(s, kinds, b, n)
  {
    forall b: nat, n: nat | IsWholeMarker(s, kinds, b, n)
      ensures false
    {
      StartIsForced(s, kinds, b, n, start);
    }
  }

  lemma NoMarkerInDollars(s: string, kinds: Kinds, start: nat, contentend: nat)
    requires start < contentend <= |s| && !IsWhitespace(s[start]) && !IsWhitespace(s[contentend - 1])
    requires forall i :: 0 <= i < start ==> IsWhitespace(s[i])
    requires forall i :: contentend <= i < |s| ==> IsWhitespace(s[i])
    requires IsDollarQuoted(s[start..contentend])
    ensures forall b: nat, n: nat :: !IsWholeMarker(s, kinds, b, n)
  {
    hide IsDollarQuoted;
    forall b: nat, n: nat | IsWholeMarker(s, kinds, b, n)
      ensures false
    {
      StartIsForced(s, kinds, b, n, start);
      EndIsForced(s, kinds, b, n, contentend);
    }
  }

  /** There is more after the name than white space. */
  lemma NoMarkerBeforeText(s: string, kinds: Kinds, start: nat, end: nat, p: nat)
    requires start < end <= p <= |s| && At(s, p) != NUL && !IsWhitespace(s[start])
    requires forall i :: 0 <= i < start ==> IsWhitespace(s[i])
    requires forall i :: start < i < end ==> IsBindVariableNameCharacter(s[i])
    requires forall i :: end <= i < p ==> IsWhitespace(s[i])
    requires !IsBindVariableNameCharacter(At(s, end)) && !IsWhitespace(At(s, p))
    ensures forall b: nat, n: nat :: !IsWholeMarker(s, kinds, b, n)
  {
    hide IsDollarQuoted;
    forall b: nat, n: nat | IsWholeMarker(s, kinds, b, n)
      ensures false
    {
      StartIsForced(s, kinds, b, n, start);
      RestIsSpace(s, kinds, start, n, end, p);
    }
  }

  /** After the name there is nothing but white space. */
  lemma RestIsSpace(s: string, kinds: Kinds, start: nat, n: nat, end: nat, p: nat)
    requires IsWholeMarker(s, kinds, start, n) && start < end <= p <= |s|
    requires forall i :: start < i < end ==> IsBindVariableNameCharacter(s[i])
    requires forall i :: end <= i < p ==> IsWhitespace(s[i])
    requires !IsBindVariableNameCharacter(At(s, end)) && !IsWhitespace(At(s, p))
    ensures p == |s|
  {
    hide IsBindVariableNameCharacter, IsWhitespace, IsDollarQuoted, IsBindDelimiter;
    assert start + n <= end;
  }

  lemma MarkerFound(s: string, kinds: Kinds, start: nat, end: nat, contentend: nat)
    requires start < end <= |s| && start < contentend <= |s| && IsBindDelimiter(s, start, kinds)
    requires forall i :: 0 <= i < start ==> IsWhitespace(s[i])
    requires forall i :: start < i < end ==> IsBindVariableNameCharacter(s[i])
    requires forall i :: end <= i < |s| ==> IsWhitespace(s[i])
    requires forall i :: contentend <= i < |s| ==> IsWhitespace(s[i])
    requires !IsWhitespace(s[contentend - 1]) && !IsDollarQuoted(s[start..contentend])
    ensures IsWholeMarker(s, kinds, start, end - start)
  {
    DelimiterIsNoSpace(s, start, kinds);
    if start < end - 1 {
      NameIsNoSpace(s[end - 1]);
    }
    hide IsBindVariableNameCharacter, IsWhitespace, IsDollarQuoted, IsBindDelimiter;
    assert !IsWhitespace(s[end - 1]);
    assert end == contentend;
    assert start + (end - start) == end;
  }

  lemma StartIsForced(s: string, kinds: Kinds, b: nat, n: nat, start: nat)
    requires IsWholeMarker(s, kinds, b, n)
    requires start <= |s| && !IsWhitespace(At(s, start))
    requires forall i :: 0 <= i < start ==> IsWhitespace(s[i])
    ensures b == start
  {
    DelimiterIsNoSpace(s, b, kinds);
    hide IsBindVariableNameCharacter, IsWhitespace, IsDollarQuoted, IsBindDelimiter;
  }

  lemma EndIsForced(s: string, kinds: Kinds, b: nat, n: nat, contentend: nat)
    requires IsWholeMarker(s, kinds, b, n)
    requires 0 < contentend <= |s| && !IsWhitespace(s[contentend - 1])
    requires forall i :: contentend <= i < |s| ==> IsWhitespace(s[i])
    ensures b + n == contentend
  {
    DelimiterIsNoSpace(s, b, kinds);
    if n > 1 {
      NameIsNoSpace(s[b + n - 1]);
    }
    hide IsBindVariableNameCharacter, IsWhitespace, IsDollarQuoted, IsBindDelimiter;
    assert !IsWhitespace(s[b + n - 1]);
  }

  /** What a recognised span is, character by character: a delimiter, then ASCII letters, digits, underscores,
      dollar and number signs, with white space on both sides. */
  lemma WholeMarkerIs(s: string, kinds: Kinds, start: nat, len: nat)
    ensures IsWholeMarker(s, kinds, start, len) <==>
      && 0 < len && start + len <= |s| && !IsDollarQuoted(s[start..start + len])
      && IsBindDelimiter(s, start, kinds)
      && (forall i :: start < i < start + len ==>
            || 'a' <= s[i] <= 'z' || 'A' <= s[i] <= 'Z' || '0' <= s[i] <= '9'
            || s[i] == '_' || s[i] == '$' || s[i] == '#')
      && (forall i :: 0 <= i < start || start + len <= i < |s| ==>
            || s[i] == ' ' || s[i] == '\t' || s[i] == '\n' || s[i] == '\U{0B}' || s[i] == '\U{0C}' || s[i] == '\r')
  {
    hide IsDollarQuoted, IsBindDelimiter;
    forall i | 0 <= i < |s|
      ensures IsWhitespace(s[i]) <==>
        || s[i] == ' ' || s[i] == '\t' || s[i] == '\n' || s[i] == '\U{0B}' || s[i] == '\U{0C}' || s[i] == '\r'
      ensures IsBindVariableNameCharacter(s[i]) <==>
        || 'a' <= s[i] <= 'z' || 'A' <= s[i] <= 'Z' || '0' <= s[i] <= '9'
        || s[i] == '_' || s[i] == '$' || s[i] == '#'
    {
      WhitespaceIs(s[i]);
    }
    hide IsWhitespace, IsBindVariableNameCharacter;
  }

  lemma WhitespaceIs(c: char)
    ensures IsWhitespace(c) <==>
      c == ' ' || c == '\t' || c == '\n' || c == '\U{0B}' || c == '\U{0C}' || c == '\r'
  {
  }

  /** Two recognised spans of one string are the same span. */
  lemma WholeMarkerIsUnique(s: string, kinds: Kinds, b: nat, n: nat, b': nat, n': nat)
    requires IsWholeMarker(s, kinds, b, n) && IsWholeMarker(s, kinds, b', n')
    ensures b == b' && n == n'
  {
    StartIsForced(s, kinds, b', n', b);
    EndIsForced(s, kinds, b', n', b + n);
  }

  // ------------------------------------------------ the counter and the rewriter on such a string

  /** A space, a marker and its name, as a query of its own. */
  ghost predicate IsLoneMarker(q: string) {
    && |q| > 1 && q[0] == ' '
    && forall i :: 1 < i < |q| ==> IsBindVariableNameCharacter(q[i])
  }

  lemma {:induction false} LoneMarkerLabels(q: string, kinds: Kinds, backslash: bool, n: nat)
    requires IsLoneMarker(q) && IsBindDelimiter(q, 1, kinds) && 1 <= n <= |q|
    ensures forall i :: 2 <= i < n ==> LabelAt(q, kinds, backslash, i) == Body
    ensures LabelAt(q, kinds, backslash, 1) == Head
    ensures Replaced(q, kinds, backslash, n) == if n == 1 then " " else " NULL"
    ensures forall k :: Markers(q, kinds, backslash, k, n) == if n > 1 && q[1] == MarkerChar(k) then 1 else 0
  {
    assert LabelAt(q, kinds, backslash, 0) == Plain;
    assert LabelAt(q, kinds, backslash, 1) == Head;
    if n == 1 {
      assert Replaced(q, kinds, backslash, 0) == "";
    } else {
      LoneMarkerLabels(q, kinds, backslash, n - 1);
      if n > 2 {
        assert LabelAt(q, kinds, backslash, n - 2) in {Head, Body};
        assert LabelAt(q, kinds, backslash, n - 1) == Body;
      }
    }
  }

  lemma {:induction false} OtherKindSeesNothing(q: string, kinds: Kinds, backslash: bool, k: Kind, n: nat)
    requires IsLoneMarker(q) && !IsBindDelimiter(q, 1, kinds) && 1 <= n <= |q|
    requires !BeforeBindVariable(q[1]) && q[1] != '\''
    ensures forall i :: 0 <= i < n ==> LabelAt(q, kinds, backslash, i) == Plain
    ensures Markers(q, kinds, backslash, k, n) == 0
  {
    assert LabelAt(q, kinds, backslash, 0) == Plain;
    if n > 1 {
      OtherKindSeesNothing(q, kinds, backslash, k, n - 1);
      if n > 2 {
        assert !BeforeBindVariable(q[n - 2]) && q[n - 2] != '\'';
        assert LabelAt(q, kinds, backslash, n - 1) == Plain;
      }
    }
  }

  lemma DelimiterHasKind(q: string, kinds: Kinds, i: nat) returns (k: Kind)
    requires IsBindDelimiter(q, i, kinds)
    ensures kinds.Has(k) && At(q, i) == MarkerChar(k)
    ensures forall others: Kinds :: others.Has(k) ==> IsBindDelimiter(q, i, others)
    ensures forall other :: other != k ==> !IsBindDelimiter(q, i, Only(other))
  {
    k := match At(q, i)
         case '?' => QuestionMark
         case ':' => Colon
         case '@' => AtSign
         case _ => DollarSign;
  }

  lemma LoneMarkerResult(q: string, kinds: Kinds, k: Kind, backslash: bool)
    requires |q| > 1 && IsLoneMarker(q) && q[1] == MarkerChar(k) && kinds.Has(k)
    requires IsBindDelimiter(q, 1, kinds) && IsBindDelimiter(q, 1, Only(k))
    requires forall other :: other != k ==> !IsBindDelimiter(q, 1, Only(other))
    ensures Counted(q, kinds, backslash) == 1
    ensures Rewritten(q, kinds, backslash) == " NULL"
  {
    hide LabelAt, Markers, Replaced, IsLoneMarker, IsBindDelimiter;
    LoneMarkerLabels(q, kinds, backslash, |q|);
    LoneMarkerLabels(q, Only(k), backslash, |q|);
    OneKindCounted(q, k, backslash);
    forall other: Kind | other != k
      ensures Counted(q, Only(other), backslash) == 0
    {
      OtherKindSeesNothing(q, Only(other), backslash, other, |q|);
      OneKindCounted(q, other, backslash);
    }
    assert Chosen(q, kinds, backslash) == Some(k);
  }

  /** The content of a whole marker, after a space, is one marker to the counter and NULL to the
      rewriter, under the same kinds. */
  lemma WholeMarkerCountsOnce(s: string, kinds: Kinds, start: nat, len: nat, backslash: bool)
    requires IsWholeMarker(s, kinds, start, len)
    ensures Counted(" " + s[start..start + len], kinds, backslash) == 1
    ensures Rewritten(" " + s[start..start + len], kinds, backslash) == " NULL"
  {
    var q := " " + s[start..start + len];
    assert q[1] == s[start];
    assert forall i :: 1 < i < |q| ==> q[i] == s[start + i - 1];
    assert IsBindDelimiter(q, 1, kinds);
    var k := DelimiterHasKind(q, kinds, 1);
    assert Only(k).Has(k);
    LoneMarkerResult(q, kinds, k, backslash);
  }
}
