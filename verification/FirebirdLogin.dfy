/** The login rules of src/auths/firebird_userlist.cpp: a quoted login loses its quotes, an unquoted
    one made of SQL symbol characters is upcased, and anything else is left alone. */
module FirebirdLogin {
  import opened Characters

  predicate AccountSymbolChar(c: char, first: bool) {
    c < '\U{80}' && ((IsDigit(c) && !first) || IsAlphabetical(c) || c == '_' || c == '$')
  }

  predicate IsQuote(c: char) {
    c == '"' || c == '\''
  }

  /** Every character is an SQL symbol character where it stands. */
  ghost predicate AllSymbols(s: string) {
    forall i :: 0 <= i < |s| ==> AccountSymbolChar(s[i], i == 0)
  }

  /** Every character but the quotes is one. */
  ghost predicate AllSymbolsButQuotes(s: string, quote: char) {
    forall i :: 0 <= i < |s| && s[i] != quote ==> AccountSymbolChar(s[i], i == 0)
  }

  // ------------------------------------------------------------ quoting

  /** How a login is quoted. */
  function Quoted(s: string, quote: char): string {
    [quote] + Doubled(s, quote) + [quote]
  }

  /** What a login that is quoted properly was made from.  t is what follows the opening quote. */
  function Unquoted(t: string, quote: char): Option<string> {
    if t == "" then None
    else if t[0] != quote then
      match Unquoted(t[1..], quote)
      case None => None
      case Some(s) => Some([t[0]] + s)
    else if |t| == 1 then Some("")
    else if t[1] != quote then None
    else
      match Unquoted(t[2..], quote)
      case None => None
      case Some(s) => Some([quote] + s)
  }

  lemma {:induction false} UnquotedIsInverse(s: string, quote: char)
    ensures Unquoted(Doubled(s, quote) + [quote], quote) == Some(s)
  {
    var t := Doubled(s, quote) + [quote];
    if s == "" {
      assert t == [quote];
    } else {
      UnquotedIsInverse(s[1..], quote);
      var rest := Doubled(s[1..], quote) + [quote];
      if s[0] == quote {
        assert t == [quote, quote] + rest && t[2..] == rest;
      } else {
        assert t == [s[0]] + rest && t[1..] == rest;
      }
      assert s == [s[0]] + s[1..];
    }
  }

  lemma {:induction false} OnlyQuotedIsUnquoted(t: string, quote: char)
    requires Unquoted(t, quote).Some?
    ensures t == Doubled(Unquoted(t, quote).value, quote) + [quote]
    decreases |t|
  {
    var s := Unquoted(t, quote).value;
    if t[0] != quote {
      OnlyQuotedIsUnquoted(t[1..], quote);
      assert s[1..] == Unquoted(t[1..], quote).value;
      assert t == [t[0]] + t[1..];
    } else if |t| > 1 {
      OnlyQuotedIsUnquoted(t[2..], quote);
      assert s[1..] == Unquoted(t[2..], quote).value;
      assert t == [t[0], t[1]] + t[2..];
    } else {
      assert t == [quote];
    }
  }

  /** A login is the quoted form of at most one string, and this finds it. */
  lemma UnquotedIff(login: string, s: string, quote: char)
    ensures login == Quoted(s, quote) <==>
      login != "" && login[0] == quote && Unquoted(login[1..], quote) == Some(s)
  {
    if login == Quoted(s, quote) {
      assert login[1..] == Doubled(s, quote) + [quote];
      UnquotedIsInverse(s, quote);
    }
    if login != "" && login[0] == quote && Unquoted(login[1..], quote) == Some(s) {
      OnlyQuotedIsUnquoted(login[1..], quote);
      assert login == [login[0]] + login[1..];
    }
  }

  // ------------------------------------------------------------ the rules

  /** The account a login stands for. */
  ghost function Account(login: string): string {
    if login != "" && IsQuote(login[0]) then
      match Unquoted(login[1..], login[0])
      case None => login
      case Some(s) => if login[0] == '\'' && AllSymbolsButQuotes(s, '\'') then Upper(s) else s
    else if AllSymbols(login) then Upper(login) else login
  }

  /** How much of the dequoting loop is done: buf holds what has been unquoted of login[1..i]. */
  ghost predicate Dequoting(login: string, i: nat, buf: string) {
    && 1 <= i <= |login| && IsQuote(login[0])
    && Unquoted(login[1..], login[0]) ==
       match Unquoted(login[i..], login[0]) case None => None case Some(s) => Some(buf + s)
  }

  lemma DequotingStep(login: string, i: nat, buf: string)
    requires Dequoting(login, i, buf) && i < |login|
    ensures
      var quote := login[0];
      if login[i] != quote then Dequoting(login, i + 1, buf + [login[i]])
      else if i + 1 == |login| then Unquoted(login[1..], quote) == Some(buf)
      else if login[i + 1] != quote then Unquoted(login[1..], quote).None?
      else Dequoting(login, i + 2, buf + [quote])
  {
    var quote, t := login[0], login[i..];
    assert t[0] == login[i] && t[1..] == login[i + 1..];
    if i + 1 < |login| {
      assert t[1] == login[i + 1] && t[2..] == login[i + 2..];
    }
    if login[i] != quote {
      match Unquoted(t[1..], quote)
      case None =>
      case Some(s) => assert buf + ([login[i]] + s) == (buf + [login[i]]) + s;
    } else if i + 1 == |login| {
      assert buf + "" == buf;
    } else if login[i + 1] == quote {
      match Unquoted(t[2..], quote)
      case None =>
      case Some(s) => assert buf + ([quote] + s) == (buf + [quote]) + s;
    }
  }

  method AccountName(login: string) returns (account: string)
    ensures account == Account(login)
  {
    hide Unquoted;
    var len := |login|;
    if len > 0 && (login[0] == '"' || login[0] == '\'') {
      var endquote := login[0];
      var ascii := true;
      var buf := "";
      StartDequoting(login);
      var i := 1;
      while i < len
        invariant Dequoting(login, i, buf)
        invariant ascii <==> AllSymbolsButQuotes(buf, endquote)
        invariant buf == "" <==> i == 1
      {
        DequotingStep(login, i, buf);
        if login[i] == endquote {
          i := i + 1;
          if i >= len {
            return if ascii && endquote == '\'' then Upper(buf) else buf;
          }
          if login[i] != endquote {
            return login;
          }
        } else if !AccountSymbolChar(login[i], i == 1) {
          ascii := false;
        }
        SymbolsSnoc(buf, login[i], endquote);
        buf := buf + [login[i]];
        i := i + 1;
      }
      RanOff(login, buf);
      return login;
    }

    for i := 0 to len
      invariant forall j :: 0 <= j < i ==> AccountSymbolChar(login[j], j == 0)
    {
      if !AccountSymbolChar(login[i], i == 0) {
        return login;
      }
    }
    return Upper(login);
  }

  lemma StartDequoting(login: string)
    requires login != "" && IsQuote(login[0])
    ensures Dequoting(login, 1, "")
  {
    hide Unquoted;
    match Unquoted(login[1..], login[0])
    case None =>
    case Some(s) => assert "" + s == s;
  }

  lemma SymbolsSnoc(s: string, c: char, quote: char)
    ensures AllSymbolsButQuotes(s + [c], quote) <==>
      AllSymbolsButQuotes(s, quote) && (c == quote || AccountSymbolChar(c, s == ""))
  {
    var t := s + [c];
    assert t[|s|] == c;
    assert forall i :: 0 <= i < |s| ==> t[i] == s[i];
  }

  lemma RanOff(login: string, buf: string)
    requires Dequoting(login, |login|, buf)
    ensures Unquoted(login[1..], login[0]).None?
  {
    assert login[|login|..] == "";
  }

  method SameAccount(user: string, configuser: string) returns (same: bool)
    ensures same <==> Account(user) == Account(configuser)
  {
    var useraccount := AccountName(user);
    var configaccount := AccountName(configuser);
    same := useraccount == configaccount;
  }

  // ------------------------------------------------------------ what the rules promise

  /** Dequoting inverts quoting: every string is the account of its double-quoted form. */
  lemma DequotingInvertsQuoting(s: string)
    ensures Account(Quoted(s, '"')) == s
  {
    UnquotedIff(Quoted(s, '"'), s, '"');
  }

  /** A login is left as it came in when it starts with a quote and isn't properly quoted: an end
      quote is missing, or a quote inside isn't doubled. */
  lemma MalformedIsLeftAlone(login: string)
    requires login != "" && IsQuote(login[0])
    requires forall s :: login != Quoted(s, login[0])
    ensures Account(login) == login
  {
    match Unquoted(login[1..], login[0])
    case None =>
    case Some(s) => UnquotedIff(login, s, login[0]);
  }

  /** Two logins made only of SQL symbol characters are the same account exactly when they are equal
      up to the case of their letters. */
  lemma SymbolLoginsIgnoreCase(a: string, b: string)
    requires AllSymbols(a) && AllSymbols(b)
    ensures Account(a) == Account(b) <==>
      |a| == |b| && forall i :: 0 <= i < |a| ==>
        a[i] == b[i] || (IsAlphabetical(a[i]) && IsAlphabetical(b[i]) && UpperChar(a[i]) == UpperChar(b[i]))
  {
    assert a != "" ==> !IsQuote(a[0]);
    assert b != "" ==> !IsQuote(b[0]);
    assert |a| == |b| ==> (Upper(a) == Upper(b) <==> forall i :: 0 <= i < |a| ==> UpperChar(a[i]) == UpperChar(b[i])) by {
      if |a| == |b| && Upper(a) == Upper(b) {
        forall i | 0 <= i < |a|
          ensures UpperChar(a[i]) == UpperChar(b[i])
        {
          assert Upper(a)[i] == Upper(b)[i];
        }
      }
    }
    assert Account(a) == Upper(a) && Account(b) == Upper(b);
    assert |Upper(a)| == |a| && |Upper(b)| == |b|;
  }

  /** The rule as the source's comment words it: a single-quoted login is upcased if everything
      inside the quotes is an SQL symbol character. */
  ghost function WordedAccount(s: string): string {
    if AllSymbols(s) then Upper(s) else s
  }

  /** The code skips the check for a doubled quote, so the wording holds exactly for the strings that
      have no single quote, or another character that isn't a symbol, or no lower case letter. */
  lemma SingleQuotedWordingIff(s: string)
    ensures Account(Quoted(s, '\'')) == WordedAccount(s) <==>
      '\'' !in s || !AllSymbolsButQuotes(s, '\'') || forall i :: 0 <= i < |s| ==> !('a' <= s[i] <= 'z')
  {
    UnquotedIff(Quoted(s, '\''), s, '\'');
    assert Account(Quoted(s, '\'')) == if AllSymbolsButQuotes(s, '\'') then Upper(s) else s;
    if '\'' in s {
      var k :| 0 <= k < |s| && s[k] == '\'';
      assert !AccountSymbolChar(s[k], k == 0);
      assert WordedAccount(s) == s;
    } else {
      assert AllSymbols(s) <==> AllSymbolsButQuotes(s, '\'');
    }
  }

  /** For example: a''b in single quotes is upcased although it has a quote in it. */
  lemma SingleQuotedWordingExample()
    ensures Account(Quoted("a'b", '\'')) == "A'B" != WordedAccount("a'b")
  {
    var s := "a'b";
    UnquotedIff(Quoted(s, '\''), s, '\'');
    assert AllSymbolsButQuotes(s, '\'');
    assert Upper(s) == "A'B";
    assert !AccountSymbolChar(s[1], false);
  }

  // ------------------------------------------------------------ applying the rules twice

  /** The login is the quoted form of some string. */
  ghost predicate IsQuotedForm(login: string) {
    login != "" && IsQuote(login[0]) && Unquoted(login[1..], login[0]).Some?
  }

  predicate HasLower(s: string) {
    exists i :: 0 <= i < |s| && 'a' <= s[i] <= 'z'
  }

  /** Neither quotes to lose nor letters to upcase. */
  ghost predicate IsFixed(s: string) {
    !IsQuotedForm(s) && (AllSymbols(s) ==> !HasLower(s))
  }

  lemma {:induction false} UnquotedIsShorter(t: string, quote: char)
    requires Unquoted(t, quote).Some?
    ensures |Unquoted(t, quote).value| < |t|
    decreases |t|
  {
    if t[0] != quote {
      UnquotedIsShorter(t[1..], quote);
    } else if |t| > 1 {
      UnquotedIsShorter(t[2..], quote);
    }
  }

  /** Quotes aren't letters, so upcasing and dequoting don't get in each other's way. */
  lemma {:induction false} UnquotedUpper(t: string, quote: char)
    requires IsQuote(quote)
    ensures Unquoted(Upper(t), quote).Some? <==> Unquoted(t, quote).Some?
    decreases |t|
  {
    assert forall i :: 0 <= i < |t| ==> (Upper(t)[i] == quote <==> t[i] == quote);
    if t != "" && t[0] != quote {
      UnquotedUpper(t[1..], quote);
      assert Upper(t)[1..] == Upper(t[1..]);
    } else if |t| > 1 && t[1] == quote {
      UnquotedUpper(t[2..], quote);
      assert Upper(t)[2..] == Upper(t[2..]);
    }
  }

  lemma UpperKeepsForm(s: string)
    ensures IsQuotedForm(Upper(s)) <==> IsQuotedForm(s)
  {
    if s != "" {
      assert Upper(s)[0] == UpperChar(s[0]);
      assert IsQuote(s[0]) <==> IsQuote(Upper(s)[0]);
      assert Upper(s)[1..] == Upper(s[1..]);
      if IsQuote(s[0]) {
        UnquotedUpper(s[1..], s[0]);
      }
    }
  }

  /** A string is its own account iff it has no quotes to lose and no letters to upcase. */
  lemma AccountIsSameIff(s: string)
    ensures Account(s) == s <==> IsFixed(s)
  {
    if IsQuotedForm(s) {
      UnquotedIsShorter(s[1..], s[0]);
      assert |Account(s)| < |s|;
    } else if s != "" && IsQuote(s[0]) {
      assert !AccountSymbolChar(s[0], true);
    }
  }

  lemma UpperIsFixed(s: string)
    ensures IsFixed(Upper(s)) <==> !IsQuotedForm(s)
  {
    UpperKeepsForm(s);
    assert forall i :: 0 <= i < |s| ==> Upper(s)[i] == UpperChar(s[i]);
  }

  /** For every login: applying the rules twice is applying them once, unless the login is quoted, and
      what was inside double quotes has quotes to lose or letters to upcase, or what was inside single
      quotes has quotes to lose. */
  lemma IdempotentIff(login: string)
    ensures Account(Account(login)) == Account(login)
       <==> (IsQuotedForm(login) ==>
              var s := Unquoted(login[1..], login[0]).value;
              if login[0] == '"' then IsFixed(s) else !IsQuotedForm(s))
  {
    AccountIsSameIff(Account(login));
    hide Unquoted;
    if IsQuotedForm(login) {
      var s := Unquoted(login[1..], login[0]).value;
      UpperIsFixed(s);
      assert AllSymbols(s) ==> AllSymbolsButQuotes(s, '\'');
    } else {
      assert login != "" && IsQuote(login[0]) ==> !AccountSymbolChar(login[0], true);
      UpperIsFixed(login);
    }
  }

  /** For example, applying the rules twice to "a" in double quotes upcases it. */
  lemma AccountIsNotIdempotent()
    ensures Account(Account(Quoted("a", '"'))) != Account(Quoted("a", '"'))
  {
    DequotingInvertsQuoting("a");
    assert AllSymbols("a") && Upper("a")[0] == 'A';
  }

  /** Which logins without quotes are upcased: those of ASCII letters, digits that aren't first, underscores and
      dollar signs, and no others. */
  lemma UpcasedIff(login: string)
    requires login != "" && login[0] != '"' && login[0] != '\''
    ensures
      var upcased := forall i :: 0 <= i < |login| ==>
        || 'a' <= login[i] <= 'z' || 'A' <= login[i] <= 'Z' || login[i] == '_' || login[i] == '$'
        || (i > 0 && '0' <= login[i] <= '9');
      Account(login) == if upcased then Upper(login) else login
  {
    forall i | 0 <= i < |login|
      ensures AccountSymbolChar(login[i], i == 0) <==>
        || 'a' <= login[i] <= 'z' || 'A' <= login[i] <= 'Z' || login[i] == '_' || login[i] == '$'
        || (i > 0 && '0' <= login[i] <= '9')
    {
    }
  }
}
