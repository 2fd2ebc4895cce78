/** What the counter, the rewriter and the whole-marker recogniser promise one another. */
module BindVariableTheorems {
  import opened Characters
  import opened BindVariables

  // ------------------------------------------------------------ rewriting is a split at markers

  /** texts[0] marks[0] texts[1] ... marks[n-1] texts[n] */
  function Woven(texts: seq<string>, marks: seq<string>): string
    requires |texts| == |marks| + 1
  {
    if |marks| == 0 then texts[0] else
    Woven(texts[..|marks|], marks[..|marks| - 1]) + marks[|marks| - 1] + texts[|marks|]
  }

  /** texts[0] NULL texts[1] ... NULL texts[n] */
  function WithNulls(texts: seq<string>): string
    requires |texts| > 0
  {
    if |texts| == 1 then texts[0] else
    WithNulls(texts[..|texts| - 1]) + "NULL" + texts[|texts| - 1]
  }

  /** Marker j starts at a delimiter of q, right after a character that may precede one. */
  ghost predicate StartsProperly(q: string, k: Kind, texts: seq<string>, marks: seq<string>, j: nat)
    requires j < |marks| && |texts| == |marks| + 1
  {
    && marks[j] != ""
    && texts[j] != "" && BeforeBindVariable(texts[j][|texts[j]| - 1])
    && IsBindDelimiter(q, |Woven(texts[..j + 1], marks[..j])|, Only(k))
  }

  /** The first n characters of q are texts and markers of kind k in turn. */
  ghost predicate IsSplit(q: string, k: Kind, n: nat, texts: seq<string>, marks: seq<string>) {
    && n <= |q|
    && |texts| == |marks| + 1
    && Woven(texts, marks) == q[..n]
    && forall j :: 0 <= j < |marks| ==> StartsProperly(q, k, texts, marks, j)
  }

  /** One more character of text. */
  lemma SplitText(q: string, k: Kind, n: nat, ts: seq<string>, ms: seq<string>, texts: seq<string>)
    requires n < |q| && IsSplit(q, k, n, ts, ms)
    requires texts == ts[..|ms|] + [ts[|ms|] + [q[n]]]
    ensures IsSplit(q, k, n + 1, texts, ms)
    ensures WithNulls(texts) == WithNulls(ts) + [q[n]]
  {
    hide IsBindDelimiter, BeforeBindVariable;
    var m := |ms|;
    assert texts[..m] == ts[..m];
    assert q[..n + 1] == q[..n] + [q[n]];
    forall j | 0 <= j < m
      ensures StartsProperly(q, k, texts, ms, j)
    {
      assert texts[..j + 1] == ts[..j + 1];
      assert StartsProperly(q, k, ts, ms, j);
    }
  }

  /** A marker starts. */
  lemma SplitHead(q: string, k: Kind, n: nat, ts: seq<string>, ms: seq<string>,
                  texts: seq<string>, marks: seq<string>)
    requires n < |q| && IsSplit(q, k, n, ts, ms)
    requires texts == ts + [""] && marks == ms + [[q[n]]]
    requires IsBindDelimiter(q, n, Only(k))
    requires ts[|ms|] != "" && BeforeBindVariable(ts[|ms|][|ts[|ms|]| - 1])
    ensures IsSplit(q, k, n + 1, texts, marks)
    ensures WithNulls(texts) == WithNulls(ts) + "NULL"
  {
    hide IsBindDelimiter, BeforeBindVariable;
    var m := |ms|;
    assert texts[..m + 1] == ts && marks[..m] == ms;
    assert q[..n + 1] == q[..n] + [q[n]];
    assert StartsProperly(q, k, texts, marks, m);
    forall j | 0 <= j < m
      ensures StartsProperly(q, k, texts, marks, j)
    {
      assert texts[..j + 1] == ts[..j + 1] && marks[..j] == ms[..j];
      assert StartsProperly(q, k, ts, ms, j);
    }
  }

  /** A marker goes on. */
  lemma SplitBody(q: string, k: Kind, n: nat, ts: seq<string>, ms: seq<string>, marks: seq<string>)
    requires n < |q| && IsSplit(q, k, n, ts, ms) && |ms| > 0
    requires marks == ms[..|ms| - 1] + [ms[|ms| - 1] + [q[n]]]
    requires ts[|ms|] == ""
    ensures IsSplit(q, k, n + 1, ts, marks)
  {
    hide IsBindDelimiter, BeforeBindVariable;
    var m := |ms|;
    assert marks[..m - 1] == ms[..m - 1];
    assert q[..n + 1] == q[..n] + [q[n]];
    forall j | 0 <= j < m
      ensures StartsProperly(q, k, ts, marks, j)
    {
      assert marks[..j] == ms[..j];
      assert StartsProperly(q, k, ts, ms, j);
    }
  }

  lemma BodyFollowsMarker(q: string, kinds: Kinds, backslash: bool, i: nat)
    requires i < |q| && LabelAt(q, kinds, backslash, i) == Body
    ensures i > 0 && LabelAt(q, kinds, backslash, i - 1) in {Head, Body}
  {
  }

  /** What the last text of a split looks like when the character before position n is labelled. */
  ghost predicate LastText(q: string, n: nat, here: Label, texts: seq<string>, marks: seq<string>)
    requires 0 < n <= |q| && |texts| == |marks| + 1
  {
    var last := texts[|marks|];
    if here == Plain || here == Quoted
    then last != "" && last[|last| - 1] == q[n - 1]
    else last == "" && |marks| > 0
  }

  // ------------------------------------------------------------ where the markers end

  /** Where marker j starts. */
  function MarkStart(texts: seq<string>, marks: seq<string>, j: nat): nat
    requires j < |marks| && |texts| == |marks| + 1
  {
    |Woven(texts[..j + 1], marks[..j])|
  }

  /** Among the first n characters, the len characters at a position are a marker: its head, its body, and,
      if more characters follow, no more of it. */
  ghost predicate IsSpan(q: string, k: Kind, backslash: bool, n: nat, at: nat, len: nat)
    requires n <= |q|
  {
    && 1 <= len && at + len <= n
    && LabelAt(q, Only(k), backslash, at) == Head
    && (forall p :: at < p < at + len ==> LabelAt(q, Only(k), backslash, p) == Body)
    && (at + len < n ==> LabelAt(q, Only(k), backslash, at + len) != Body)
  }

  ghost predicate SpanAt(q: string, k: Kind, backslash: bool, n: nat, texts: seq<string>, marks: seq<string>, j: nat)
    requires n <= |q| && |texts| == |marks| + 1 && j < |marks|
  {
    && IsSpan(q, k, backslash, n, MarkStart(texts, marks, j), |marks[j]|)
    && (j + 1 < |marks| ==> MarkStart(texts, marks, j) + |marks[j]| < n)
  }

  ghost predicate AreSpans(q: string, k: Kind, backslash: bool, n: nat, texts: seq<string>, marks: seq<string>)
    requires n <= |q| && |texts| == |marks| + 1
  {
    forall j :: 0 <= j < |marks| ==> SpanAt(q, k, backslash, n, texts, marks, j)
  }

  /** A marker is where it was, and as long, after one more character that isn't its body. */
  lemma SpanCarries(q: string, k: Kind, backslash: bool, n: nat, ts: seq<string>, ms: seq<string>,
                    texts: seq<string>, marks: seq<string>, j: nat)
    requires n < |q| && |ts| == |ms| + 1 && |texts| == |marks| + 1 && j < |ms| <= |marks|
    requires SpanAt(q, k, backslash, n, ts, ms, j)
    requires texts[..j + 1] == ts[..j + 1] && marks[..j] == ms[..j] && marks[j] == ms[j]
    requires j + 1 < |ms| || LabelAt(q, Only(k), backslash, n) != Body
    ensures SpanAt(q, k, backslash, n + 1, texts, marks, j)
  {
    hide LabelAt, Woven;
  }

  /** The last marker ends where the last text starts. */
  lemma LastMarkEnds(q: string, k: Kind, n: nat, texts: seq<string>, marks: seq<string>)
    requires IsSplit(q, k, n, texts, marks) && marks != []
    ensures MarkStart(texts, marks, |marks| - 1) + |marks[|marks| - 1]| + |texts[|marks|]| == n
  {
    assert texts[..|marks| - 1 + 1] == texts[..|marks|];
  }

  lemma SpansPastText(q: string, k: Kind, backslash: bool, n: nat, ts: seq<string>, ms: seq<string>, texts: seq<string>)
    requires n < |q| && |texts| == |ts| == |ms| + 1 && AreSpans(q, k, backslash, n, ts, ms)
    requires texts[..|ms|] == ts[..|ms|] && LabelAt(q, Only(k), backslash, n) != Body
    ensures AreSpans(q, k, backslash, n + 1, texts, ms)
  {
    hide LabelAt, SpanAt;
    var more := n + 1;
    forall j | 0 <= j < |ms| ensures SpanAt(q, k, backslash, more, texts, ms, j) {
      assert texts[..j + 1] == texts[..|ms|][..j + 1] == ts[..|ms|][..j + 1] == ts[..j + 1];
      SpanCarries(q, k, backslash, n, ts, ms, texts, ms, j);
    }
  }

  lemma SpansPastHead(q: string, k: Kind, backslash: bool, n: nat, ts: seq<string>, ms: seq<string>,
                      texts: seq<string>, marks: seq<string>)
    requires n < |q| && IsSplit(q, k, n, ts, ms) && AreSpans(q, k, backslash, n, ts, ms)
    requires texts == ts + [""] && marks == ms + [[q[n]]] && LabelAt(q, Only(k), backslash, n) == Head
    ensures AreSpans(q, k, backslash, n + 1, texts, marks)
  {
    hide LabelAt, SpanAt;
    HeadSpan(q, k, backslash, n, ts, ms, texts, marks);
    var more := n + 1;
    forall j | 0 <= j < |ms| ensures SpanAt(q, k, backslash, more, texts, marks, j) {
      assert texts[..j + 1] == ts[..j + 1] && marks[..j] == ms[..j];
      SpanCarries(q, k, backslash, n, ts, ms, texts, marks, j);
    }
  }

  lemma HeadSpan(q: string, k: Kind, backslash: bool, n: nat, ts: seq<string>, ms: seq<string>,
                 texts: seq<string>, marks: seq<string>)
    requires n < |q| && IsSplit(q, k, n, ts, ms)
    requires texts == ts + [""] && marks == ms + [[q[n]]] && LabelAt(q, Only(k), backslash, n) == Head
    ensures SpanAt(q, k, backslash, n + 1, texts, marks, |ms|)
  {
    assert texts[..|ms| + 1] == ts && marks[..|ms|] == ms;
    assert MarkStart(texts, marks, |ms|) == n;
    hide LabelAt, Woven, IsSplit;
  }

  lemma SpansPastBody(q: string, k: Kind, backslash: bool, n: nat, ts: seq<string>, ms: seq<string>, marks: seq<string>)
    requires n < |q| && IsSplit(q, k, n, ts, ms) && AreSpans(q, k, backslash, n, ts, ms) && |ms| > 0
    requires marks == ms[..|ms| - 1] + [ms[|ms| - 1] + [q[n]]] && ts[|ms|] == ""
    requires LabelAt(q, Only(k), backslash, n) == Body
    ensures AreSpans(q, k, backslash, n + 1, ts, marks)
  {
    hide LabelAt, SpanAt;
    var m := |ms|;
    assert marks[..m - 1] == ms[..m - 1];
    BodySpan(q, k, backslash, n, ts, ms, marks);
    var more := n + 1;
    forall j | 0 <= j < m - 1 ensures SpanAt(q, k, backslash, more, ts, marks, j) {
      assert marks[..j] == marks[..m - 1][..j] == ms[..m - 1][..j] == ms[..j];
      SpanCarries(q, k, backslash, n, ts, ms, ts, marks, j);
    }
  }

  lemma BodySpan(q: string, k: Kind, backslash: bool, n: nat, ts: seq<string>, ms: seq<string>, marks: seq<string>)
    requires n < |q| && IsSplit(q, k, n, ts, ms) && |ms| > 0 && SpanAt(q, k, backslash, n, ts, ms, |ms| - 1)
    requires |marks| == |ms| && marks[..|ms| - 1] == ms[..|ms| - 1] && ts[|ms|] == ""
    requires marks[|ms| - 1] == ms[|ms| - 1] + [q[n]] && LabelAt(q, Only(k), backslash, n) == Body
    ensures SpanAt(q, k, backslash, n + 1, ts, marks, |ms| - 1)
  {
    LastMarkEnds(q, k, n, ts, ms);
    hide LabelAt, Woven, IsSplit;
  }

  /** The characters that a marker may start after. */
  const STARTS := " \t\n\r=<>,(+-*/%|&!~^"

  /** The characters that end a marker. */
  const ENDS := " \t\n\r,);=<>!"

  lemma StartsIff(c: char)
    ensures BeforeBindVariable(c) <==> c in STARTS
  {
  }

  /** A marker also ends at a colon with an equals sign after it. */
  predicate EndsAt(q: string, p: nat)
    requires p < |q|
  {
    q[p] in ENDS || (q[p] == ':' && p + 1 < |q| && q[p + 1] == '=')
  }

  lemma EndsAtIff(q: string, p: nat)
    requires p < |q|
    ensures AfterBindVariable(q, p) <==> EndsAt(q, p)
  {
  }

  /** Marker j starts outside quotes after one of those characters, holds nothing that ends it, and is followed
      by something that does, or by the end of the query. */
  ghost predicate IsWhole(q: string, k: Kind, backslash: bool, texts: seq<string>, marks: seq<string>, j: nat)
    requires j < |marks| && |texts| == |marks| + 1
  {
    var at := MarkStart(texts, marks, j);
    var end := at + |marks[j]|;
    && 0 < at < end <= |q|
    && LabelAt(q, Only(k), backslash, at - 1) == Plain && q[at - 1] in STARTS
    && (forall p :: at < p < end ==> !EndsAt(q, p))
    && (end == |q| || EndsAt(q, end))
  }

  lemma SpanIsWhole(q: string, k: Kind, backslash: bool, texts: seq<string>, marks: seq<string>, j: nat)
    requires |texts| == |marks| + 1 && AreSpans(q, k, backslash, |q|, texts, marks) && j < |marks|
    ensures IsWhole(q, k, backslash, texts, marks, j)
  {
    var at := MarkStart(texts, marks, j);
    var end := at + |marks[j]|;
    assert SpanAt(q, k, backslash, |q|, texts, marks, j);
    HeadIsDelimiter(q, Only(k), backslash, at);
    StartsIff(q[at - 1]);
    hide LabelAt, Woven, AfterBindVariable, BeforeBindVariable, EndsAt;
    forall p | at < p < end ensures !EndsAt(q, p) {
      BodyGoesOn(q, Only(k), backslash, p);
      EndsAtIff(q, p);
    }
    if end < |q| {
      MarkerEndsHere(q, Only(k), backslash, end);
      EndsAtIff(q, end);
    }
  }

  lemma BodyGoesOn(q: string, kinds: Kinds, backslash: bool, p: nat)
    requires 0 < p < |q| && LabelAt(q, kinds, backslash, p) == Body
    ensures !AfterBindVariable(q, p)
  {
    hide AfterBindVariable;
  }

  lemma MarkerEndsHere(q: string, kinds: Kinds, backslash: bool, p: nat)
    requires 0 < p < |q| && LabelAt(q, kinds, backslash, p - 1) in {Head, Body} && LabelAt(q, kinds, backslash, p) != Body
    ensures AfterBindVariable(q, p)
  {
    hide AfterBindVariable;
  }

  lemma SplitStep(q: string, k: Kind, backslash: bool, n: nat, ts: seq<string>, ms: seq<string>)
    returns (texts: seq<string>, marks: seq<string>)
    requires n < |q| && |ts| == |ms| + 1 && IsSplit(q, k, n, ts, ms) && AreSpans(q, k, backslash, n, ts, ms)
    requires MayStart(q, k, n, LabelAt(q, Only(k), backslash, n), ts, ms)
    ensures IsSplit(q, k, n + 1, texts, marks)
    ensures |texts| == |marks| + 1 && AreSpans(q, k, backslash, n + 1, texts, marks)
    ensures
      var here := LabelAt(q, Only(k), backslash, n);
      && |marks| == |ms| + (if here == Head then 1 else 0)
      && WithNulls(texts) == WithNulls(ts) + (match here case Head => "NULL" case Body => "" case _ => [q[n]])
      && LastText(q, n + 1, here, texts, marks)
  {
    hide LabelAt, IsBindDelimiter, BeforeBindVariable, IsSplit, WithNulls, AreSpans;
    texts, marks := ts, ms;
    var m := |ms|;
    match LabelAt(q, Only(k), backslash, n)
    case Head =>
      texts, marks := ts + [""], ms + [[q[n]]];
      SplitHead(q, k, n, ts, ms, texts, marks);
      SpansPastHead(q, k, backslash, n, ts, ms, texts, marks);
    case Body =>
      marks := ms[..m - 1] + [ms[m - 1] + [q[n]]];
      SplitBody(q, k, n, ts, ms, marks);
      SpansPastBody(q, k, backslash, n, ts, ms, marks);
    case _ =>
      texts := ts[..m] + [ts[m] + [q[n]]];
      SplitText(q, k, n, ts, ms, texts);
      SpansPastText(q, k, backslash, n, ts, ms, texts);
  }

  lemma SplitStart(q: string, k: Kind, backslash: bool)
    ensures IsSplit(q, k, 0, [""], [])
    ensures WithNulls([""]) == Replaced(q, Only(k), backslash, 0) == ""
    ensures Markers(q, Only(k), backslash, k, 0) == 0
  {
  }

  lemma FirstIsPlain(q: string, kinds: Kinds, backslash: bool)
    ensures LabelAt(q, kinds, backslash, 0) == Plain
  {
  }

  /** What a marker's first and later characters need of the text before them is there. */
  lemma MarkerMayFollow(q: string, k: Kind, backslash: bool, n: nat, texts: seq<string>, marks: seq<string>)
    requires 0 < n < |q| && |texts| == |marks| + 1
    requires LastText(q, n, LabelAt(q, Only(k), backslash, n - 1), texts, marks)
    ensures MayStart(q, k, n, LabelAt(q, Only(k), backslash, n), texts, marks)
  {
    if LabelAt(q, Only(k), backslash, n) == Head {
      HeadIsDelimiter(q, Only(k), backslash, n);
    } else if LabelAt(q, Only(k), backslash, n) == Body {
      BodyFollowsMarker(q, Only(k), backslash, n);
    }
  }

  ghost predicate MayStart(q: string, k: Kind, n: nat, here: Label, ts: seq<string>, ms: seq<string>)
    requires n < |q| && |ts| == |ms| + 1
  {
    && (here == Head ==>
      && IsBindDelimiter(q, n, Only(k)) && ts[|ms|] != ""
      && BeforeBindVariable(ts[|ms|][|ts[|ms|]| - 1]))
    && (here == Body ==> ts[|ms|] == "" && |ms| > 0)
  }

  lemma {:induction false} Split(q: string, k: Kind, backslash: bool, n: nat)
    returns (texts: seq<string>, marks: seq<string>)
    requires n <= |q|
    ensures IsSplit(q, k, n, texts, marks)
    ensures WithNulls(texts) == Replaced(q, Only(k), backslash, n)
    ensures |marks| == Markers(q, Only(k), backslash, k, n)
    ensures |texts| == |marks| + 1 && AreSpans(q, k, backslash, n, texts, marks)
    ensures n > 0 ==> LastText(q, n, LabelAt(q, Only(k), backslash, n - 1), texts, marks)
  {
    hide LabelAt, Markers, Replaced, IsSplit, WithNulls, LastText, IsBindDelimiter, BeforeBindVariable, IsSpan;
    if n == 0 {
      texts, marks := [""], [];
      SplitStart(q, k, backslash);
    } else {
      texts, marks := Split(q, k, backslash, n - 1);
      if n > 1 {
        MarkerMayFollow(q, k, backslash, n - 1, texts, marks);
      } else {
        FirstIsPlain(q, Only(k), backslash);
      }
      texts, marks := SplitStep(q, k, backslash, n - 1, texts, marks);
      CountedHere(q, k, backslash, n - 1);
    }
  }

  lemma CountedHere(q: string, k: Kind, backslash: bool, n: nat)
    requires n < |q|
    ensures Markers(q, Only(k), backslash, k, n + 1) == Markers(q, Only(k), backslash, k, n)
      + if LabelAt(q, Only(k), backslash, n) == Head then 1 else 0
    ensures Replaced(q, Only(k), backslash, n + 1) == Replaced(q, Only(k), backslash, n)
      + match LabelAt(q, Only(k), backslash, n) case Head => "NULL" case Body => "" case _ => [q[n]]
  {
    if LabelAt(q, Only(k), backslash, n) == Head {
      HeadIsDelimiter(q, Only(k), backslash, n);
    }
  }

  // ------------------------------------------------------------ nothing is left to rewrite

  lemma {:induction false} ReplacedGrows(q: string, kinds: Kinds, backslash: bool, n: nat, m: nat)
    requires n <= m <= |q|
    ensures Replaced(q, kinds, backslash, n) <= Replaced(q, kinds, backslash, m)
    decreases m - n
  {
    if n < m {
      ReplacedGrows(q, kinds, backslash, n, m - 1);
    }
  }

  /** A character of text is copied to where the text before it ended. */
  lemma CopiedThrough(q: string, k: Kind, backslash: bool, n: nat)
    requires n < |q|
    ensures
      var out, at := Replaced(q, Only(k), backslash, |q|), |Replaced(q, Only(k), backslash, n)|;
      && (LabelAt(q, Only(k), backslash, n) in {Plain, Quoted} ==> at < |out| && out[at] == q[n])
      && (LabelAt(q, Only(k), backslash, n) == Head ==> at + 4 <= |out| && out[at..at + 4] == "NULL")
  {
    ReplacedGrows(q, Only(k), backslash, n + 1, |q|);
  }

  /** Where the query has no marker, the rewritten query has none either. */
  lemma NoNewDelimiter(q: string, k: Kind, backslash: bool, n: nat)
    requires 0 < n <= |q|
    requires LabelAt(q, Only(k), backslash, n - 1) == Plain && BeforeBindVariable(q[n - 1])
    ensures !IsBindDelimiter(Replaced(q, Only(k), backslash, |q|),
                             |Replaced(q, Only(k), backslash, n)|, Only(k))
  {
    hide LabelAt, BeforeBindVariable, Replaced;
    if n == |q| {
      assert At(Replaced(q, Only(k), backslash, |q|), |Replaced(q, Only(k), backslash, n)|) == NUL;
    } else {
      CopiedThrough(q, k, backslash, n);
      CopyStep(q, k, backslash, n);
      DecidedHere(q, k, backslash, n);
      if n + 1 < |q| {
        CopiedThrough(q, k, backslash, n + 1);
      }
    }
  }

  lemma CopyStep(q: string, k: Kind, backslash: bool, n: nat)
    requires n < |q|
    ensures LabelAt(q, Only(k), backslash, n) in {Plain, Quoted} ==>
      |Replaced(q, Only(k), backslash, n + 1)| == |Replaced(q, Only(k), backslash, n)| + 1
  {
    hide LabelAt;
  }

  lemma DecidedHere(q: string, k: Kind, backslash: bool, n: nat)
    requires 0 < n < |q|
    requires LabelAt(q, Only(k), backslash, n - 1) == Plain && BeforeBindVariable(q[n - 1])
    ensures LabelAt(q, Only(k), backslash, n) == if IsBindDelimiter(q, n, Only(k)) then Head else Plain
    ensures LabelAt(q, Only(k), backslash, n) == Plain && (q[n] == ':' || q[n] == '@') ==>
      LabelAt(q, Only(k), backslash, n + 1) == Plain
  {
  }

  ghost predicate Mirrored(q: string, k: Kind, backslash: bool, n: nat)
    requires n <= |q|
  {
    var out, at := Replaced(q, Only(k), backslash, |q|), |Replaced(q, Only(k), backslash, n)|;
    && at <= |out|
    && (forall j :: 0 <= j < at ==> LabelAt(out, Only(k), backslash, j) in {Plain, Quoted})
    && LabelAt(out, Only(k), backslash, at)
       == (if LabelAt(q, Only(k), backslash, n) == Quoted then Quoted else Plain)
    && (n == 0 || LabelAt(q, Only(k), backslash, n - 1) in {Plain, Quoted} ==>
          OddBackslashes(out, at) == OddBackslashes(q, n))
  }

  lemma NullIsText(out: string, k: Kind, backslash: bool, at: nat)
    requires at + 4 <= |out| && out[at..at + 4] == "NULL"
    requires LabelAt(out, Only(k), backslash, at) == Plain
    ensures forall j :: at <= j <= at + 4 ==> LabelAt(out, Only(k), backslash, j) == Plain
  {
    assert out[at] == out[at..at + 4][0] == 'N';
    assert out[at + 1] == out[at..at + 4][1] == 'U';
    assert out[at + 2] == out[at..at + 4][2] == 'L';
    assert out[at + 3] == out[at..at + 4][3] == 'L';
    assert LabelAt(out, Only(k), backslash, at + 1) == Plain;
    assert LabelAt(out, Only(k), backslash, at + 2) == Plain;
    assert LabelAt(out, Only(k), backslash, at + 3) == Plain;
  }

  lemma MirrorHead(q: string, k: Kind, backslash: bool, n: nat)
    requires n < |q| && Mirrored(q, k, backslash, n) && LabelAt(q, Only(k), backslash, n) == Head
    ensures Mirrored(q, k, backslash, n + 1)
  {
    CopiedThrough(q, k, backslash, n);
    NullIsText(Replaced(q, Only(k), backslash, |q|), k, backslash, |Replaced(q, Only(k), backslash, n)|);
  }

  /** A backslash doesn't end a marker. */
  lemma BackslashFollowsText(q: string, kinds: Kinds, backslash: bool, n: nat)
    requires 0 < n < |q| && q[n] == '\\' && LabelAt(q, kinds, backslash, n) in {Plain, Quoted}
    ensures LabelAt(q, kinds, backslash, n - 1) in {Plain, Quoted}
  {
    hide IsBindDelimiter, BeforeBindVariable, OddBackslashes;
  }

  /** Backslash parity is the same on both sides in front of a character of text. */
  lemma MirrorParity(q: string, k: Kind, backslash: bool, n: nat)
    requires n < |q| && Mirrored(q, k, backslash, n)
    requires LabelAt(q, Only(k), backslash, n) in {Plain, Quoted}
    ensures
      var out, at := Replaced(q, Only(k), backslash, |q|), |Replaced(q, Only(k), backslash, n)|;
      at < |out| && OddBackslashes(out, at + 1) == OddBackslashes(q, n + 1)
  {
    hide LabelAt, Replaced;
    CopiedThrough(q, k, backslash, n);
    if q[n] == '\\' && n > 0 {
      BackslashFollowsText(q, Only(k), backslash, n);
    }
  }

  lemma MirrorPlain(q: string, k: Kind, backslash: bool, n: nat)
    requires n < |q| && Mirrored(q, k, backslash, n) && LabelAt(q, Only(k), backslash, n) == Plain
    ensures Mirrored(q, k, backslash, n + 1)
  {
    hide IsBindDelimiter, BeforeBindVariable, LabelAt, Replaced, OddBackslashes;
    CopiedThrough(q, k, backslash, n);
    MirrorParity(q, k, backslash, n);
    CopyStep(q, k, backslash, n);
    if BeforeBindVariable(q[n]) {
      NoNewDelimiter(q, k, backslash, n + 1);
    }
    PlainNext(q, Only(k), backslash, n);
    PlainNext(Replaced(q, Only(k), backslash, |q|), Only(k), backslash, |Replaced(q, Only(k), backslash, n)|);
  }

  lemma PlainNext(q: string, kinds: Kinds, backslash: bool, n: nat)
    requires n < |q| && LabelAt(q, kinds, backslash, n) == Plain
    ensures LabelAt(q, kinds, backslash, n + 1) ==
      if q[n] == '\'' then Quoted
      else if BeforeBindVariable(q[n]) && IsBindDelimiter(q, n + 1, kinds) then Head
      else Plain
  {
    hide IsBindDelimiter, BeforeBindVariable, OddBackslashes;
  }

  lemma MirrorQuoted(q: string, k: Kind, backslash: bool, n: nat)
    requires n < |q| && Mirrored(q, k, backslash, n) && LabelAt(q, Only(k), backslash, n) == Quoted
    ensures Mirrored(q, k, backslash, n + 1)
  {
    hide IsBindDelimiter, BeforeBindVariable;
    CopiedThrough(q, k, backslash, n);
    MirrorParity(q, k, backslash, n);
  }

  lemma MirrorBody(q: string, k: Kind, backslash: bool, n: nat)
    requires n < |q| && Mirrored(q, k, backslash, n) && LabelAt(q, Only(k), backslash, n) == Body
    ensures Mirrored(q, k, backslash, n + 1)
  {
  }

  lemma MirrorStart(q: string, k: Kind, backslash: bool)
    ensures Mirrored(q, k, backslash, 0)
  {
  }

  lemma MirrorStep(q: string, k: Kind, backslash: bool, n: nat)
    requires n < |q| && Mirrored(q, k, backslash, n)
    ensures Mirrored(q, k, backslash, n + 1)
  {
    hide Mirrored, LabelAt;
    var here := LabelAt(q, Only(k), backslash, n);
    if here == Head {
      MirrorHead(q, k, backslash, n);
    } else if here == Body {
      MirrorBody(q, k, backslash, n);
    } else if here == Plain {
      MirrorPlain(q, k, backslash, n);
    } else {
      MirrorQuoted(q, k, backslash, n);
    }
  }

  lemma {:induction false} Mirror(q: string, k: Kind, backslash: bool, n: nat)
    requires n <= |q|
    ensures Mirrored(q, k, backslash, n)
  {
    hide Mirrored;
    if n == 0 {
      MirrorStart(q, k, backslash);
    } else {
      Mirror(q, k, backslash, n - 1);
      MirrorStep(q, k, backslash, n - 1);
    }
  }

  lemma {:induction false} NoHeadsNoMarkers(q: string, k: Kind, backslash: bool, n: nat)
    requires n <= |q|
    requires forall j :: 0 <= j < n ==> LabelAt(q, Only(k), backslash, j) != Head
    ensures Markers(q, Only(k), backslash, k, n) == 0
  {
    if n > 0 {
      NoHeadsNoMarkers(q, k, backslash, n - 1);
    }
  }

  lemma NothingLeft(q: string, k: Kind, backslash: bool)
    ensures var out := Replaced(q, Only(k), backslash, |q|);
      Markers(out, Only(k), backslash, k, |out|) == 0
  {
    hide LabelAt, Markers, Replaced, IsBindDelimiter, BeforeBindVariable;
    Mirror(q, k, backslash, |q|);
    var out := Replaced(q, Only(k), backslash, |q|);
    NoHeadsNoMarkers(out, k, backslash, |out|);
  }

  lemma CountedNone(q: string, k: Kind, backslash: bool)
    requires Markers(q, Only(k), backslash, k, |q|) == 0
    ensures Chosen(q, Only(k), backslash).None? && Rewritten(q, Only(k), backslash) == q
  {
    hide LabelAt, Markers, Counted;
    OneKindCounted(q, k, backslash);
  }

  /** Rewriting is exact, for every query and every set of kinds: when a kind is chosen the query
      splits at its markers, each of them whole, and each of them becomes NULL, the number of them is what the counter
      reports for that kind alone, and the result holds no marker of that kind, so a second pass
      for it copies its input through.  When none is chosen the query is copied. */
  lemma RewritingIsExact(q: string, kinds: Kinds, backslash: bool)
    ensures Chosen(q, kinds, backslash).None? ==> Rewritten(q, kinds, backslash) == q
    ensures forall k :: Chosen(q, kinds, backslash) == Some(k) ==>
      var out := Rewritten(q, kinds, backslash);
      && kinds.Has(k)
      && (exists texts, marks ::
            && IsSplit(q, k, |q|, texts, marks)
            && (forall j :: 0 <= j < |marks| ==> IsWhole(q, k, backslash, texts, marks, j))
            && WithNulls(texts) == out
            && 0 < |marks| == Markers(q, Only(k), backslash, k, |q|)
            && |marks| % UINT16 == Counted(q, Only(k), backslash))
      && Markers(out, Only(k), backslash, k, |out|) == 0
      && Chosen(out, Only(k), backslash).None?
      && Rewritten(out, Only(k), backslash) == out
  {
    hide LabelAt, Markers, Replaced, IsSplit, WithNulls, LastText, Counted, IsBindDelimiter, BeforeBindVariable,
      AreSpans, IsWhole;
    match Chosen(q, kinds, backslash)
    case None =>
    case Some(k) =>
      var texts, marks := Split(q, k, backslash, |q|);
      forall j | 0 <= j < |marks| ensures IsWhole(q, k, backslash, texts, marks, j) {
        SpanIsWhole(q, k, backslash, texts, marks, j);
      }
      OneKindCounted(q, k, backslash);
      NothingLeft(q, k, backslash);
      CountedNone(Rewritten(q, kinds, backslash), k, backslash);
  }

  // ------------------------------------------------------------ the 16 bit counters

  function AllMarkers(q: string, kinds: Kinds, backslash: bool, n: nat): nat
    requires n <= |q|
  {
    Markers(q, kinds, backslash, QuestionMark, n) + Markers(q, kinds, backslash, Colon, n)
    + Markers(q, kinds, backslash, AtSign, n) + Markers(q, kinds, backslash, DollarSign, n)
  }

  lemma AllMarkersStep(q: string, kinds: Kinds, backslash: bool, n: nat)
    requires n < |q|
    ensures AllMarkers(q, kinds, backslash, n + 1) <= AllMarkers(q, kinds, backslash, n)
      + if LabelAt(q, kinds, backslash, n) == Head then 1 else 0
  {
    hide LabelAt;
  }

  /** Every marker is two characters at least: its delimiter and the one that let it start. */
  lemma {:induction false} MarkersTakeRoom(q: string, kinds: Kinds, backslash: bool, n: nat)
    requires n <= |q|
    ensures 2 * AllMarkers(q, kinds, backslash, n) <= n
  {
    if n > 0 {
      hide LabelAt, AllMarkers, IsBindDelimiter, BeforeBindVariable;
      AllMarkersStep(q, kinds, backslash, n - 1);
      if LabelAt(q, kinds, backslash, n - 1) == Head {
        HeadIsDelimiter(q, kinds, backslash, n - 1);
        MarkersTakeRoom(q, kinds, backslash, n - 2);
        AllMarkersStep(q, kinds, backslash, n - 2);
      } else {
        MarkersTakeRoom(q, kinds, backslash, n - 1);
      }
    }
  }

  /** The true number of markers of the first kind, in the counter's order, that the query has. */
  function TrueCount(q: string, kinds: Kinds, backslash: bool): nat {
    var d := Markers(q, kinds, backslash, DollarSign, |q|);
    var m := Markers(q, kinds, backslash, QuestionMark, |q|);
    var c := Markers(q, kinds, backslash, Colon, |q|);
    if d > 0 then d else if m > 0 then m else if c > 0 then c
    else Markers(q, kinds, backslash, AtSign, |q|)
  }

  /** For any kinds, the answer is the true number iff that number fits in the counter. */
  lemma CounterIsExactIff(q: string, kinds: Kinds, backslash: bool)
    ensures Counted(q, kinds, backslash) == TrueCount(q, kinds, backslash) <==> TrueCount(q, kinds, backslash) < UINT16
  {
    hide LabelAt, Markers;
  }

  /** So no counter wraps in a query of up to 131071 characters. */
  lemma CountersDoNotWrap(q: string, kinds: Kinds, backslash: bool)
    requires |q| <= 131071
    ensures Counted(q, kinds, backslash) == TrueCount(q, kinds, backslash)
  {
    hide LabelAt, Markers;
    MarkersTakeRoom(q, kinds, backslash, |q|);
  }

  function Spaced(n: nat): string
    ensures |Spaced(n)| == 2 * n
  {
    if n == 0 then "" else Spaced(n - 1) + " ?"
  }

  lemma {:induction false} SpacedAt(n: nat, i: nat)
    requires i < 2 * n
    ensures Spaced(n)[i] == if i % 2 == 0 then ' ' else '?'
  {
    if i < 2 * (n - 1) {
      SpacedAt(n - 1, i);
    }
  }

  lemma {:induction false} SpacedMarkers(n: nat, backslash: bool, j: nat)
    requires j <= n
    ensures Markers(Spaced(n), Only(QuestionMark), backslash, QuestionMark, 2 * j) == j
    ensures j < n ==> LabelAt(Spaced(n), Only(QuestionMark), backslash, 2 * j) == Plain
  {
    if j > 0 {
      SpacedMarkers(n, backslash, j - 1);
      SpacedAt(n, 2 * j - 2);
      SpacedAt(n, 2 * j - 1);
      if j < n {
        SpacedAt(n, 2 * j);
      }
      assert LabelAt(Spaced(n), Only(QuestionMark), backslash, 2 * j - 1) == Head;
    }
  }

  lemma {:induction false} SpacedEnds(n: nat, backslash: bool)
    ensures Markers(Spaced(n), Only(QuestionMark), backslash, QuestionMark, 2 * n) == n
  {
    SpacedMarkers(n, backslash, n);
  }

  lemma SpacedAreMiscounted(n: nat, backslash: bool)
    requires n % UINT16 == 0
    ensures Markers(Spaced(n), Only(QuestionMark), backslash, QuestionMark, 2 * n) == n
    ensures Counted(Spaced(n), Only(QuestionMark), backslash) == 0
    ensures Chosen(Spaced(n), Only(QuestionMark), backslash).None?
  {
    hide Spaced, Counted;
    SpacedEnds(n, backslash);
    OneKindCounted(Spaced(n), QuestionMark, backslash);
  }

  /** The bound is the best there is: one more character and a query of question marks alone is
      counted as having none. */
  lemma CountersWrapAt131072(backslash: bool)
    ensures |Spaced(65536)| == 131072
    ensures Markers(Spaced(65536), Only(QuestionMark), backslash, QuestionMark, 131072) == 65536
    ensures Counted(Spaced(65536), Only(QuestionMark), backslash) == 0
    ensures Chosen(Spaced(65536), Only(QuestionMark), backslash).None?
  {
    SpacedAreMiscounted(65536, backslash);
  }

  // ------------------------------------------------------------ all kinds against one kind

  /** Two sets of kinds that recognise the same delimiters in q see the same markers. */
  lemma {:induction false} SameDelimitersSameLabels(q: string, kinds: Kinds, others: Kinds, backslash: bool, i: nat)
    requires i <= |q|
    requires forall j: nat :: j <= |q| ==> IsBindDelimiter(q, j, kinds) == IsBindDelimiter(q, j, others)
    ensures LabelAt(q, kinds, backslash, i) == LabelAt(q, others, backslash, i)
  {
    if i > 0 {
      SameDelimitersSameLabels(q, kinds, others, backslash, i - 1);
      assert IsBindDelimiter(q, i, kinds) == IsBindDelimiter(q, i, others);
    }
  }

  lemma {:induction false} SameDelimitersSameMarkers(q: string, kinds: Kinds, others: Kinds, backslash: bool,
                                                     k: Kind, n: nat)
    requires n <= |q|
    requires forall j: nat :: j <= |q| ==> IsBindDelimiter(q, j, kinds) == IsBindDelimiter(q, j, others)
    ensures Markers(q, kinds, backslash, k, n) == Markers(q, others, backslash, k, n)
  {
    if n > 0 {
      SameDelimitersSameLabels(q, kinds, others, backslash, n - 1);
      SameDelimitersSameMarkers(q, kinds, others, backslash, k, n - 1);
    }
  }

  /** No marker character of an enabled kind other than k. */
  ghost predicate OnlyKindPresent(q: string, kinds: Kinds, k: Kind) {
    && kinds.Has(k)
    && forall other :: kinds.Has(other) && other != k ==> MarkerChar(other) !in q
  }

  lemma PresentKindDelimits(q: string, kinds: Kinds, k: Kind, j: nat)
    requires OnlyKindPresent(q, kinds, k) && j <= |q|
    ensures IsBindDelimiter(q, j, kinds) == IsBindDelimiter(q, j, Only(k))
  {
    if j < |q| {
      assert q[j] in q;
      assert kinds.questionmark && k != QuestionMark ==> kinds.Has(QuestionMark) && MarkerChar(QuestionMark) !in q;
      assert kinds.colon && k != Colon ==> kinds.Has(Colon) && MarkerChar(Colon) !in q;
      assert kinds.atsign && k != AtSign ==> kinds.Has(AtSign) && MarkerChar(AtSign) !in q;
      assert kinds.dollarsign && k != DollarSign ==> kinds.Has(DollarSign) && MarkerChar(DollarSign) !in q;
    }
  }

  lemma {:induction false} AbsentKindHasNoMarkers(q: string, kinds: Kinds, backslash: bool, k: Kind, n: nat)
    requires n <= |q| && MarkerChar(k) !in q
    ensures Markers(q, kinds, backslash, k, n) == 0
  {
    if n > 0 {
      AbsentKindHasNoMarkers(q, kinds, backslash, k, n - 1);
    }
  }

  /** When the marker characters of at most one enabled kind occur, enabling all the kinds makes
      no difference: the counter answers as it does for that kind alone, and the rewriter picks
      that kind, unless it counted none of it, and so returns the same number. */
  lemma OneKindAgreement(q: string, kinds: Kinds, k: Kind, backslash: bool)
    requires OnlyKindPresent(q, kinds, k)
    ensures Counted(q, kinds, backslash) == Counted(q, Only(k), backslash)
    ensures Chosen(q, kinds, backslash)
         == (if Counted(q, kinds, backslash) == 0 then None else Some(k))
    ensures Rewritten(q, kinds, backslash) == Rewritten(q, Only(k), backslash)
  {
    forall j: nat | j <= |q|
      ensures IsBindDelimiter(q, j, kinds) == IsBindDelimiter(q, j, Only(k))
    {
      PresentKindDelimits(q, kinds, k, j);
    }
    forall other: Kind {
      SameDelimitersSameMarkers(q, kinds, Only(k), backslash, other, |q|);
    }
    OneKindCounted(q, k, backslash);
    forall other: Kind | other != k
      ensures Markers(q, Only(k), backslash, other, |q|) == 0
      ensures kinds.Has(other) ==> Counted(q, Only(other), backslash) == 0
    {
      OtherKindsAbsent(q, k, backslash, other, |q|);
      if kinds.Has(other) {
        AbsentKindHasNoMarkers(q, Only(other), backslash, other, |q|);
        OneKindCounted(q, other, backslash);
      }
    }
  }
}
