/**
 What the two query builders promise: when they fail, how long their result can get, when it is a
 well-formed boolean expression, and that quoted phrases pass through unchanged.
 */
module SearchQueryLaws {
  import opened Rows
  import opened SearchQuery

  // ----- Unclosed quotes are odd quotes -----

  function Quotes(s: string): nat {
    if s == "" then 0 else (if s[0] == '"' then 1 else 0) + Quotes(s[1..])
  }

  lemma {:induction false} PhraseParity(s: string)
    ensures ReadPhrase(s).Open? ==> Quotes(s) % 2 == 0
    ensures ReadPhrase(s).Closed? ==> (Quotes(s) + Quotes(ReadPhrase(s).rest)) % 2 == 1
  {
    if s == "" {
    } else if s[0] != '"' {
      PhraseParity(s[1..]);
    } else if |s| > 1 && s[1] == '"' {
      PhraseParity(s[2..]);
      assert s[1..][1..] == s[2..];
    }
  }

  lemma {:induction false} WordHasNoQuotes(s: string)
    ensures Quotes(s) == Quotes(s[|LeadWord(s)|..])
  {
    if s != "" && IsWordChar(s[0]) {
      WordHasNoQuotes(s[1..]);
      assert s[1..][|LeadWord(s[1..])|..] == s[|LeadWord(s)|..];
    } else {
      assert s[0..] == s;
    }
  }

  // The scan ends inside a quote exactly when the number of quote characters is odd.
  lemma {:induction false} UnclosedIffOdd(s: string)
    ensures Tokens(s).None? <==> Quotes(s) % 2 == 1
    decreases |s|
  {
    hide ReadPhrase, LeadWord;
    if s == "" {
    } else if IsSpace(s[0]) || s[0] == '|' {
      UnclosedIffOdd(s[1..]);
    } else if s[0] == '"' {
      var p := ReadPhrase(s[1..]);
      PhraseParity(s[1..]);
      if p.Closed? {
        UnclosedIffOdd(p.rest);
      }
    } else {
      WordHasNoQuotes(s);
      UnclosedIffOdd(s[|LeadWord(s)|..]);
    }
  }

  // ----- The length of the printed query -----

  function Cost(needAnd: bool, parts: seq<Part>): nat
    decreases |parts|
  {
    |PrintFrom(needAnd, parts)|
  }

  lemma CostCons(needAnd: bool, p: Part, parts: seq<Part>)
    ensures Cost(needAnd, [p] + parts) ==
      (if p.Or? then 4 else |Doubled(p.text)| + 2 + if needAnd then 5 else 0) + Cost(p.Term?, parts)
  {
  }

  lemma {:induction false} PhraseCost(s: string)
    requires ReadPhrase(s).Closed?
    ensures |Doubled(ReadPhrase(s).text)| + 1 + |ReadPhrase(s).rest| == |s|
  {
    DoubledRead(s);
    assert |s| == |Doubled(ReadPhrase(s).text) + "\"" + ReadPhrase(s).rest|;
  }

  lemma {:induction false} WordCost(s: string)
    ensures |Doubled(LeadWord(s))| == |LeadWord(s)|
  {
    if s != "" && IsWordChar(s[0]) {
      WordCost(s[1..]);
      assert LeadWord(s)[1..] == LeadWord(s[1..]);
    }
  }

  predicate StartsWord(s: string) {
    s != "" && IsWordChar(s[0])
  }

  // Printing behind a term: at most five characters for each one read, and three more if the text goes
  // on with a word. Printing at the start saves the AND of a first term.
  lemma {:induction false} CostBound(s: string)
    requires Tokens(s).Some?
    ensures Cost(true, Tokens(s).value) <= 5 * |s| + if StartsWord(s) then 3 else 0
    ensures Cost(false, Tokens(s).value) <=
      if s == "" then 0 else if |s| == 1 then 4 else 5 * |s| - 2
    decreases |s|
  {
    if s == "" {
    } else if IsSpace(s[0]) {
      CostBound(s[1..]);
    } else if s[0] == '|' {
      CostBound(s[1..]);
      CostCons(true, Or, Tokens(s[1..]).value);
      CostCons(false, Or, Tokens(s[1..]).value);
    } else if s[0] == '"' {
      var p := ReadPhrase(s[1..]);
      PhraseCost(s[1..]);
      CostBound(p.rest);
      assert "" + p.text == p.text;
      CostCons(true, Term(p.text), Tokens(p.rest).value);
      CostCons(false, Term(p.text), Tokens(p.rest).value);
    } else {
      var w, rest := LeadWord(s), s[|LeadWord(s)|..];
      WordCost(s);
      CostBound(rest);
      CostCons(true, Term(w), Tokens(rest).value);
      CostCons(false, Term(w), Tokens(rest).value);
    }
  }

  /** a""a""..a: the input that costs most. */
  function Costly(k: nat): string {
    if k == 0 then "a" else "a\"\"" + Costly(k - 1)
  }

  lemma CostlyTokens(t: string)
    requires Tokens(t).Some? && t != "" && t[0] != '"'
    ensures Tokens("a\"\"" + t) == Some([Term("a")] + ([Term("")] + Tokens(t).value))
  {
    hide Tokens;
    var u := Quoted("") + t;
    QuotedTokens("", t);
    assert u[0] == '"';
    WordTokens("a", u);
    assert "a\"\"" + t == "a" + u;
  }

  // The bound 5n - 2 is reached for inputs of every length 3k + 1, so also for 4096.
  lemma {:induction false} CostBoundIsTight(k: nat)
    ensures |Costly(k)| == 3 * k + 1 && Costly(k)[0] == 'a' && Tokens(Costly(k)).Some?
    ensures Cost(false, Tokens(Costly(k)).value) == 5 * |Costly(k)| - 2
    ensures Cost(true, Tokens(Costly(k)).value) == 5 * |Costly(k)| + 3
  {
    if k == 0 {
      BareWordIsTerm("a");
      assert [Term("a")] + [] == [Term("a")];
      CostCons(false, Term("a"), []);
      CostCons(true, Term("a"), []);
    } else {
      CostBoundIsTight(k - 1);
      var parts := Tokens(Costly(k - 1)).value;
      CostlyTokens(Costly(k - 1));
      hide Tokens, Cost;
      CostCons(true, Term(""), parts);
      CostCons(false, Term("a"), [Term("")] + parts);
      CostCons(true, Term("a"), [Term("")] + parts);
    }
  }

  // ----- Something to print -----

  lemma TokensNonEmpty(s: string)
    requires s != "" && !IsSpace(s[0]) && Tokens(s).Some?
    ensures Tokens(s).value != [] && Print(Tokens(s).value) != ""
  {
  }

  // ----- The builder -----

  datatype QueryBuild = Built(fts: string) | Failed(err: string)

  /** The first `n` characters, or all if there are no more. */
  function Cut(s: string, n: nat): (r: string)
    ensures r <= s && |r| <= n && (|r| < n ==> r == s)
  {
    if |s| > n then s[..n] else s
  }

  const MAX_QUERY: nat := 4096
  const MAX_LIVE_QUERY: nat := 512

  // Fails on an empty query and on one with an odd number of quotes left after trimming and cutting. The
  // result otherwise reads back as exactly the parts of the query, and is not empty and not too long.
  method BuildFtsQuery(raw: string) returns (r: QueryBuild)
    ensures r == Failed("empty") <==> Trimmed(raw) == ""
    ensures r == Failed("unclosed quote") <==> Quotes(Cut(Trimmed(raw), 4096)) % 2 == 1
    ensures r.Failed? ==> r.err in {"empty", "unclosed quote"}
    ensures r.Built? ==> Decode(r.fts) == Tokens(Cut(Trimmed(raw), 4096))
    ensures r.Built? ==> var n := |Cut(Trimmed(raw), 4096)|;
      0 < |r.fts| <= (if n == 1 then 4 else 5 * n - 2) <= 20478
  {
    var s := Trim(raw);
    TrimmedStart(raw);
    if s == "" {
      return Failed("empty");
    }
    if |s| > MAX_QUERY {
      s := s[..MAX_QUERY];
    }
    UnclosedIffOdd(s);
    var ok, parts := ScanParts(s);
    if !ok {
      assert "unclosed quote" != "empty" by { assert |"unclosed quote"| == 14; }
      return Failed("unclosed quote");
    }
    var out := PrintParts(parts, Tokens(s).value);
    PrintingIsUnambiguous(Tokens(s).value, out);
    TokensNonEmpty(s);
    CostBound(s);
    r := Built(out);
  }

  lemma {:induction false} LeadWordOf(w: string, rest: string)
    requires forall c :: c in w ==> IsWordChar(c)
    requires rest == "" || !IsWordChar(rest[0])
    ensures LeadWord(w + rest) == w
  {
    if w == "" {
      assert w + rest == rest;
    } else {
      assert w[0] in w;
      LeadWordOf(w[1..], rest);
      assert (w + rest)[1..] == w[1..] + rest;
      assert [w[0]] + w[1..] == w;
    }
  }

  lemma WordTokens(w: string, rest: string)
    requires w != "" && forall c :: c in w ==> IsWordChar(c)
    requires rest == "" || !IsWordChar(rest[0])
    ensures Tokens(w + rest) == Cons(Term(w), Tokens(rest))
  {
    LeadWordOf(w, rest);
    assert (w + rest)[0] == w[0] && w[0] in w;
    assert (w + rest)[|w|..] == rest;
    hide LeadWord;
    assert Tokens(w + rest) == AfterWord(w + rest);
  }

  // A bare word becomes a quoted term whatever it spells: OR is no operator, and a trailing * stays
  // inside the quotes, although the header documents it as a prefix search.
  lemma BareWordIsTerm(w: string)
    requires w != "" && forall c :: c in w ==> IsWordChar(c)
    ensures Tokens(w) == Some([Term(w)]) && Decode(Quoted(w)) == Some([Term(w)])
  {
    WordTokens(w, "");
    assert w + "" == w && Tokens("") == Some([]) && [Term(w)] + [] == [Term(w)];
    SpacedOne(w);
    PrintingIsUnambiguous([Term(w)], Quoted(w));
  }

  // ----- A query is read piece by piece -----

  /** Between the two texts no word and no quoted phrase goes on. */
  predicate Boundary(a: string, b: string) {
    a == "" || b == ""
    || (!(IsWordChar(a[|a| - 1]) && IsWordChar(b[0])) && !(a[|a| - 1] == '"' && b[0] == '"'))
  }

  lemma {:induction false} LeadWordJoin(a: string, b: string)
    requires a != "" ==> Boundary(a, b)
    ensures a != "" ==> LeadWord(a + b) == LeadWord(a)
  {
    if a != "" && IsWordChar(a[0]) {
      assert (a + b)[1..] == a[1..] + b;
      if a[1..] == "" {
        assert a[1..] + b == b;
      } else {
        LeadWordJoin(a[1..], b);
      }
    }
  }

  lemma {:induction false} ReadPhraseJoin(a: string, b: string)
    requires ReadPhrase(a).Closed? && Boundary(a, b)
    ensures ReadPhrase(a + b) == Closed(ReadPhrase(a).text, ReadPhrase(a).rest + b)
    ensures Boundary(ReadPhrase(a).rest, b)
  {
    assert (a + b)[1..] == a[1..] + b;
    if a[0] != '"' {
      ReadPhraseJoin(a[1..], b);
    } else if |a| > 1 && a[1] == '"' {
      assert (a + b)[2..] == a[2..] + b;
      ReadPhraseJoin(a[2..], b);
    } else if |a| == 1 {
      assert a[1..] + b == b;
    }
  }

  // A text with no quote left open, followed by another at a boundary: the parts are those of the first
  // and then those of the second.
  lemma {:induction false} TokensJoin(a: string, b: string)
    requires Tokens(a).Some? && Boundary(a, b)
    ensures Tokens(a + b) == Join(Tokens(a).value, Tokens(b))
    decreases |a|
  {
    hide ReadPhrase, LeadWord;
    JoinJoin([], [], Tokens(b));
    if a == "" {
      assert a + b == b;
    } else {
      assert (a + b)[1..] == a[1..] + b;
      if IsSpace(a[0]) {
        TokensJoin(a[1..], b);
      } else if a[0] == '|' {
        TokensJoin(a[1..], b);
        JoinJoin([Or], Tokens(a[1..]).value, Tokens(b));
      } else if a[0] == '"' {
        PhraseJoins(a, b);
      } else {
        WordJoins(a, b);
      }
    }
  }

  lemma PhraseJoins(a: string, b: string)
    requires a != "" && a[0] == '"' && Tokens(a).Some? && Boundary(a, b)
    ensures Tokens(a + b) == Join(Tokens(a).value, Tokens(b))
    decreases |a|, 0
  {
    hide ReadPhrase;
    var p := ReadPhrase(a[1..]);
    assert (a + b)[1..] == a[1..] + b;
    ReadPhraseJoin(a[1..], b);
    TokensJoin(p.rest, b);
    assert "" + p.text == p.text;
    JoinJoin([Term(p.text)], Tokens(p.rest).value, Tokens(b));
  }

  lemma WordJoins(a: string, b: string)
    requires StartsWord(a) && Tokens(a).Some? && Boundary(a, b)
    ensures Tokens(a + b) == Join(Tokens(a).value, Tokens(b))
    decreases |a|, 0
  {
    var w := LeadWord(a);
    LeadWordJoin(a, b);
    hide LeadWord;
    var rest := a[|w|..];
    assert (a + b)[|w|..] == rest + b;
    TokensJoin(rest, b);
    JoinJoin([Term(w)], Tokens(rest).value, Tokens(b));
    assert Tokens(a + b) == AfterWord(a + b) && Tokens(a) == AfterWord(a);
  }

  // A word anywhere outside quotes is one term, whatever it spells.
  lemma WordAnywhere(a: string, w: string, b: string)
    requires Tokens(a).Some? && w != "" && forall c :: c in w ==> IsWordChar(c)
    requires (a == "" || !IsWordChar(a[|a| - 1])) && (b == "" || !IsWordChar(b[0]))
    ensures Tokens(a + (w + b)) == Join(Tokens(a).value + [Term(w)], Tokens(b))
  {
    assert (w + b)[0] == w[0] && w[0] in w;
    WordTokens(w, b);
    hide Tokens;
    TokensJoin(a, w + b);
    JoinJoin(Tokens(a).value, [Term(w)], Tokens(b));
  }

  function Ors(parts: seq<Part>): nat {
    if parts == [] then 0 else (if parts[0].Or? then 1 else 0) + Ors(parts[1..])
  }

  /** The bars outside quotes, each quote character switching between outside and inside. */
  function OpenBars(inside: bool, s: string): nat
    decreases |s|
  {
    if s == "" then 0
    else (if s[0] == '|' && !inside then 1 else 0) + OpenBars(inside != (s[0] == '"'), s[1..])
  }

  lemma {:induction false} PhraseBars(s: string)
    requires ReadPhrase(s).Closed?
    ensures OpenBars(true, s) == OpenBars(false, ReadPhrase(s).rest)
  {
    if s[0] != '"' {
      PhraseBars(s[1..]);
    } else if |s| > 1 && s[1] == '"' {
      PhraseBars(s[2..]);
      assert s[1..][1..] == s[2..];
    }
  }

  lemma {:induction false} WordBars(s: string)
    ensures OpenBars(false, s) == OpenBars(false, s[|LeadWord(s)|..])
  {
    if s != "" && IsWordChar(s[0]) {
      WordBars(s[1..]);
      assert s[1..][|LeadWord(s[1..])|..] == s[|LeadWord(s)|..];
    } else {
      assert s[0..] == s;
    }
  }

  // The operators of a query are the bars outside its quotes, one each, and nothing else.
  lemma {:induction false} OrsAreOpenBars(s: string)
    requires Tokens(s).Some?
    ensures Ors(Tokens(s).value) == OpenBars(false, s)
    decreases |s|
  {
    hide ReadPhrase, LeadWord;
    if s == "" {
    } else if IsSpace(s[0]) || s[0] == '|' {
      OrsAreOpenBars(s[1..]);
    } else if s[0] == '"' {
      PhraseBars(s[1..]);
      OrsAreOpenBars(ReadPhrase(s[1..]).rest);
    } else {
      WordBars(s);
      OrsAreOpenBars(s[|LeadWord(s)|..]);
    }
  }

  // ----- Quoted phrases pass through -----

  function Spaced(phrases: seq<string>): string {
    if phrases == [] then ""
    else if |phrases| == 1 then Quoted(phrases[0])
    else Quoted(phrases[0]) + " " + Spaced(phrases[1..])
  }

  function Anded(phrases: seq<string>): string {
    if phrases == [] then ""
    else if |phrases| == 1 then Quoted(phrases[0])
    else Quoted(phrases[0]) + " AND " + Anded(phrases[1..])
  }

  function Terms(phrases: seq<string>): (r: seq<Part>)
    ensures |r| == |phrases|
    ensures forall i :: 0 <= i < |phrases| ==> r[i] == Term(phrases[i])
  {
    seq(|phrases|, i requires 0 <= i < |phrases| => Term(phrases[i]))
  }

  lemma TokensAtQuote(q: string)
    requires q != "" && q[0] == '"' && ReadPhrase(q[1..]).Closed?
    ensures Tokens(q) == Cons(Term(ReadPhrase(q[1..]).text), Tokens(ReadPhrase(q[1..]).rest))
  {
    hide ReadPhrase;
    assert "" + ReadPhrase(q[1..]).text == ReadPhrase(q[1..]).text;
  }

  lemma QuotedTokens(t: string, rest: string)
    requires rest == "" || rest[0] != '"'
    ensures Tokens(Quoted(t) + rest) == Cons(Term(t), Tokens(rest))
  {
    hide Tokens, ReadPhrase, Quoted;
    QuotedStart(t, rest);
    TokensAtQuote(Quoted(t) + rest);
  }

  lemma SpaceSkipped(s: string)
    ensures Tokens(" " + s) == Tokens(s)
  {
  }

  lemma SpacedOne(t: string)
    ensures Tokens(Quoted(t)) == Some([Term(t)]) && Print([Term(t)]) == Quoted(t)
  {
    hide Quoted;
    QuotedTokens(t, "");
    assert Quoted(t) + "" == Quoted(t) && Tokens("") == Some([]) && [Term(t)] + [] == [Term(t)];
    assert Chunk(false, Term(t)) == Quoted(t);
    PrintCons(false, Term(t), []);
    assert PrintFrom(true, []) == "" && Chunk(false, Term(t)) + "" == Quoted(t);
  }

  lemma SpacedMore(t: string, rest: seq<string>)
    requires rest != [] && Tokens(Spaced(rest)) == Some(Terms(rest))
    ensures Tokens(Spaced([t] + rest)) == Some(Terms([t] + rest))
  {
    hide Quoted, Tokens, Spaced;
    SpaceSkipped(Spaced(rest));
    QuotedTokens(t, " " + Spaced(rest));
    SpacedCons(t, rest);
    TermsCons(t, rest);
  }

  lemma SpacedCons(t: string, rest: seq<string>)
    requires rest != []
    ensures Spaced([t] + rest) == Quoted(t) + (" " + Spaced(rest))
  {
  }

  lemma TermsCons(t: string, rest: seq<string>)
    ensures Terms([t] + rest) == [Term(t)] + Terms(rest)
  {
  }

  lemma {:induction false} SpacedTokens(phrases: seq<string>)
    requires phrases != []
    ensures Tokens(Spaced(phrases)) == Some(Terms(phrases))
  {
    hide Quoted, Tokens;
    if |phrases| == 1 {
      SpacedOne(phrases[0]);
      assert Terms(phrases) == [Term(phrases[0])];
    } else {
      SpacedTokens(phrases[1..]);
      SpacedMore(phrases[0], phrases[1..]);
      assert phrases == [phrases[0]] + phrases[1..];
    }
  }

  lemma {:induction false} PrintTerms(phrases: seq<string>)
    requires phrases != []
    ensures Print(Terms(phrases)) == Anded(phrases)
  {
    hide Quoted, Tokens, Print;
    if |phrases| == 1 {
      SpacedOne(phrases[0]);
      assert Terms(phrases) == [Term(phrases[0])];
    } else {
      PrintTerms(phrases[1..]);
      PrintAnd(phrases[0], phrases[1..]);
      assert Terms(phrases) == [Term(phrases[0])] + Terms(phrases[1..]);
    }
  }

  lemma PrintAnd(t: string, rest: seq<string>)
    requires rest != []
    ensures Print([Term(t)] + Terms(rest)) == Quoted(t) + " AND " + Print(Terms(rest))
  {
    hide Quoted;
    var parts := Terms(rest);
    assert ([Term(t)] + parts)[1..] == parts;
    AppendChunk("", true, parts[0]);
    assert Chunk(true, parts[0]) == " AND " + Chunk(false, parts[0]);
    assert PrintFrom(true, parts) == " AND " + PrintFrom(false, parts);
  }

  lemma {:induction false} SpacedEnds(phrases: seq<string>)
    requires phrases != []
    ensures var s := Spaced(phrases); s != "" && s[0] == '"' && s[|s| - 1] == '"'
  {
    if |phrases| > 1 {
      SpacedEnds(phrases[1..]);
    }
  }

  // Quoted phrases joined by spaces, if not cut, come back as the same phrases joined by AND.
  lemma PhrasesPassThrough(phrases: seq<string>)
    requires phrases != [] && |Spaced(phrases)| <= 4096
    ensures var s := Cut(Trimmed(Spaced(phrases)), 4096);
      && Tokens(s) == Some(Terms(phrases))
      && (forall fts :: Decode(fts) == Tokens(s) <==> fts == Anded(phrases))
  {
    SpacedTokens(phrases);
    PrintTerms(phrases);
    SpacedEnds(phrases);
    assert Trimmed(Spaced(phrases)) == Spaced(phrases);
    forall fts ensures Decode(fts) == Some(Terms(phrases)) <==> fts == Anded(phrases) {
      PrintingIsUnambiguous(Terms(phrases), fts);
    }
  }

  // ----- Well-formed boolean expressions -----

  /** term (" AND " term | " OR " term)* */
  predicate IsExpression(q: string)
    decreases |q|
  {
    q != "" && q[0] == '"' &&
    var p := ReadPhrase(q[1..]);
    p.Closed? &&
    (p.rest == ""
     || (" AND " <= p.rest && IsExpression(p.rest[5..]))
     || (" OR " <= p.rest && IsExpression(p.rest[4..])))
  }

  /** No OR is first, last or next to another OR. */
  predicate OrsSeparated(parts: seq<Part>) {
    && parts != [] && parts[0].Term? && parts[|parts| - 1].Term?
    && forall i :: 0 < i < |parts| ==> parts[i - 1].Term? || parts[i].Term?
  }

  lemma ExpressionAtQuote(t: string, rest: string)
    requires rest == "" || rest[0] != '"'
    ensures IsExpression(Quoted(t) + rest) <==>
      (rest == "" || (" AND " <= rest && IsExpression(rest[5..])) || (" OR " <= rest && IsExpression(rest[4..])))
  {
    QuotedStart(t, rest);
    hide ReadPhrase, Quoted;
  }

  lemma {:induction false} PrintIsExpression(parts: seq<Part>)
    ensures IsExpression(Print(parts)) <==> OrsSeparated(parts)
    decreases |parts|
  {
    if parts == [] {
    } else if parts[0].Or? {
      assert Print(parts)[0] == ' ';
    } else {
      var t, rest := parts[0].text, parts[1..];
      var more := PrintFrom(true, rest);
      PrintStart(rest);
      ExpressionAtQuote(t, more);
      if rest == [] {
      } else if rest[0].Term? {
        PrintIsExpression(rest);
        MoreAnd(rest);
        assert OrsSeparated(parts) <==> OrsSeparated(rest) by { Shift(parts, rest); }
      } else {
        PrintIsExpression(rest[1..]);
        MoreOr(rest);
        assert OrsSeparated(parts) <==> OrsSeparated(rest[1..]) by { ShiftTwo(parts); }
      }
    }
  }

  lemma MoreAnd(rest: seq<Part>)
    requires rest != [] && rest[0].Term?
    ensures " AND " <= PrintFrom(true, rest) && PrintFrom(true, rest)[5..] == Print(rest)
    ensures !(" OR " <= PrintFrom(true, rest))
  {
    hide Quoted;
    AppendChunk("", true, rest[0]);
    var more := PrintFrom(true, rest);
    assert more == " AND " + Print(rest);
    assert more[..5] == " AND " && more[1] == 'A';
  }

  lemma MoreOr(rest: seq<Part>)
    requires rest != [] && rest[0].Or?
    ensures " OR " <= PrintFrom(true, rest) && PrintFrom(true, rest)[4..] == Print(rest[1..])
    ensures !(" AND " <= PrintFrom(true, rest))
  {
    var more := PrintFrom(true, rest);
    assert more == " OR " + Print(rest[1..]);
    assert more[..4] == " OR " && more[1] == 'O';
  }

  lemma Shift(parts: seq<Part>, rest: seq<Part>)
    requires |parts| > 1 && rest == parts[1..] && parts[0].Term? && rest[0].Term?
    ensures OrsSeparated(parts) <==> OrsSeparated(rest)
  {
  }

  lemma ShiftTwo(parts: seq<Part>)
    requires |parts| > 1 && parts[0].Term? && parts[1].Or?
    ensures OrsSeparated(parts) <==> OrsSeparated(parts[1..][1..])
  {
  }

  // The built string is a boolean expression exactly when no OR of the query is first, last or next to
  // another one.
  lemma QueryIsExpression(s: string, fts: string)
    requires Tokens(s).Some? && Decode(fts) == Tokens(s)
    ensures IsExpression(fts) <==> OrsSeparated(Tokens(s).value)
  {
    PrintingIsUnambiguous(Tokens(s).value, fts);
    PrintIsExpression(Tokens(s).value);
  }

  // ----- The live query -----

  /** The longest prefix without white space. */
  function LeadTerm(s: string): (w: string)
    ensures w <= s
    ensures forall c :: c in w ==> !IsSpace(c)
    ensures |w| < |s| ==> IsSpace(s[|w|])
  {
    if s != "" && !IsSpace(s[0]) then [s[0]] + LeadTerm(s[1..]) else ""
  }

  /** The maximal runs of characters other than white space. */
  function Runs(s: string): (r: seq<string>)
    ensures forall i :: 0 <= i < |r| ==> r[i] != ""
    decreases |s|
  {
    if s == "" then []
    else if IsSpace(s[0]) then Runs(s[1..])
    else [LeadTerm(s)] + Runs(s[|LeadTerm(s)|..])
  }

  ghost predicate IsRun(w: string) {
    w != "" && forall i :: 0 <= i < |w| ==> !IsSpace(w[i])
  }

  // White space separates, and nothing is lost.
  lemma {:induction false} RunsSplit(a: string, c: char, b: string)
    requires IsSpace(c)
    ensures Runs(a + [c] + b) == Runs(a) + Runs(b)
    decreases |a|
  {
    var s := a + [c] + b;
    if a == "" {
      assert s[1..] == b;
    } else if IsSpace(a[0]) {
      RunsSplit(a[1..], c, b);
      assert s[1..] == a[1..] + [c] + b;
    } else {
      var w := LeadTerm(a);
      assert s == a + ([c] + b);
      LeadTermStops(a, [c] + b);
      RunsSplit(a[|w|..], c, b);
      assert s[|w|..] == a[|w|..] + [c] + b;
      Assoc([w], Runs(a[|w|..]), Runs(b));
    }
  }

  // A run stands for itself. With RunsSplit this fixes Runs on every string.
  lemma RunStands(w: string)
    requires IsRun(w)
    ensures Runs(w) == [w]
  {
    assert LeadTerm(w) == w;
  }

  // A term ends before the next white space.
  lemma {:induction false} LeadTermStops(a: string, b: string)
    requires b == "" || IsSpace(b[0])
    ensures LeadTerm(a + b) == LeadTerm(a)
  {
    if a != "" && !IsSpace(a[0]) {
      LeadTermStops(a[1..], b);
      assert (a + b)[1..] == a[1..] + b;
    } else if a == "" {
      assert a + b == b;
    }
  }

  /** What splitting still yields in a given state. */
  function RunsFrom(current: string, rest: string): seq<string> {
    if current == "" then Runs(rest) else [current + LeadTerm(rest)] + Runs(rest[|LeadTerm(rest)|..])
  }

  lemma RunsStep(current: string, s: string)
    requires s != ""
    ensures IsSpace(s[0]) ==>
      RunsFrom(current, s) == (if current == "" then [] else [current]) + RunsFrom("", s[1..])
    ensures !IsSpace(s[0]) ==> RunsFrom(current, s) == RunsFrom(current + [s[0]], s[1..])
  {
    if IsSpace(s[0]) {
      assert LeadTerm(s) == "" && s[0..] == s && current + "" == current;
    } else {
      var w := LeadTerm(s[1..]);
      assert LeadTerm(s) == [s[0]] + w;
      assert s[1..][|w|..] == s[|LeadTerm(s)|..];
      assert current + [s[0]] + w == current + LeadTerm(s);
      assert current == "" ==> current + LeadTerm(s) == LeadTerm(s);
    }
  }

  lemma SplitStep(terms: seq<string>, current: string, s: string)
    requires s != ""
    ensures var kept := if current == "" then terms else terms + [current];
      IsSpace(s[0]) ==> terms + RunsFrom(current, s) == kept + RunsFrom("", s[1..])
    ensures !IsSpace(s[0]) ==> terms + RunsFrom(current, s) == terms + RunsFrom(current + [s[0]], s[1..])
  {
    RunsStep(current, s);
    hide RunsFrom, IsSpace;
    Assoc(terms, [current], RunsFrom("", s[1..]));
    Assoc([], [], RunsFrom("", s[1..]));
  }

  lemma RunsStart(s: string)
    ensures RunsFrom("", s) == Runs(s)
  {
  }

  lemma RunsEnd(current: string)
    ensures RunsFrom(current, "") == if current == "" then [] else [current]
  {
    assert current + "" == current;
  }

  method SplitTerms(raw: string) returns (terms: seq<string>)
    ensures terms == Runs(raw)
  {
    terms := [];
    var current := "";
    hide Runs, RunsFrom;
    RunsStart(raw);
    assert raw[0..] == raw && [] + Runs(raw) == Runs(raw);
    for i := 0 to |raw|
      invariant Runs(raw) == terms + RunsFrom(current, raw[i..])
    {
      SplitStep(terms, current, raw[i..]);
      assert raw[i..][1..] == raw[i + 1..];
      if IsSpace(raw[i]) {
        if current != "" {
          terms := terms + [current];
          current := "";
        }
      } else {
        current := current + [raw[i]];
      }
    }
    RunsEnd(current);
    assert raw[|raw|..] == "" && terms + [] == terms;
    if current != "" {
      terms := terms + [current];
    }
  }

  function PrintLive(terms: seq<string>): string {
    if terms == [] then ""
    else Quoted(terms[0]) + "*" + if |terms| == 1 then "" else " AND " + PrintLive(terms[1..])
  }

  /** Takes a live query apart: prefix terms joined by AND. */
  function DecodeLive(q: string): Option<seq<string>>
    decreases |q|
  {
    if q == "" || q[0] != '"' then None
    else
      var p := ReadPhrase(q[1..]);
      if p.Open? || p.rest == "" || p.rest[0] != '*' then None
      else if |p.rest| == 1 then Some([p.text])
      else if " AND " <= p.rest[1..] then ConsText(p.text, DecodeLive(p.rest[6..]))
      else None
  }

  function ConsText(t: string, ts: Option<seq<string>>): Option<seq<string>> {
    if ts.None? then None else Some([t] + ts.value)
  }

  lemma DecodeLiveAtQuote(t: string, more: string)
    requires more == "" || " AND " <= more
    ensures DecodeLive(Quoted(t) + ("*" + more)) ==
      if more == "" then Some([t]) else ConsText(t, DecodeLive(more[5..]))
  {
    var rest := "*" + more;
    QuotedStart(t, rest);
    assert rest[1..] == more;
    assert more != "" ==> rest[6..] == more[5..];
    hide ReadPhrase, Quoted;
  }

  lemma PrintLiveCons(t: string, rest: seq<string>)
    ensures PrintLive([t] + rest) == Quoted(t) + ("*" + if rest == [] then "" else " AND " + PrintLive(rest))
  {
  }

  lemma GluedStart(q: string)
    ensures " AND " <= " AND " + q && (" AND " + q)[5..] == q
  {
  }

  lemma {:induction false} DecodePrintLive(terms: seq<string>)
    requires terms != []
    ensures DecodeLive(PrintLive(terms)) == Some(terms)
  {
    hide Quoted, DecodeLive, PrintLive;
    var t, rest := terms[0], terms[1..];
    assert terms == [t] + rest;
    PrintLiveCons(t, rest);
    if rest == [] {
      assert [t] + rest == [t];
      DecodeLiveAtQuote(t, "");
    } else {
      DecodePrintLive(rest);
      GluedStart(PrintLive(rest));
      DecodeLiveAtQuote(t, " AND " + PrintLive(rest));
    }
  }

  lemma {:induction false} PrintLiveAppend(terms: seq<string>, t: string)
    ensures PrintLive(terms + [t]) ==
      PrintLive(terms) + ((if terms == [] then "" else " AND ") + Quoted(t) + "*")
  {
    hide Quoted;
    if terms == [] {
      assert terms + [t] == [t];
      assert "" + Quoted(t) == Quoted(t) && (Quoted(t) + "*") + "" == Quoted(t) + "*";
    } else {
      var first, last := Quoted(terms[0]) + "*", " AND " + Quoted(t) + "*";
      assert (terms + [t])[1..] == terms[1..] + [t];
      if |terms| == 1 {
        assert terms[1..] == [] && [] + [t] == [t] && first + "" == first;
        assert " AND " + (Quoted(t) + "*" + "") == last;
      } else {
        PrintLiveAppend(terms[1..], t);
        Assoc(" AND ", PrintLive(terms[1..]), last);
        Assoc(first, " AND " + PrintLive(terms[1..]), last);
      }
    }
  }

  method PrintLiveTerms(terms: seq<string>) returns (out: string)
    ensures out == PrintLive(terms)
  {
    assert PrintLive(terms[..0]) == "";
    hide Quoted, PrintLive;
    out := "";
    for i := 0 to |terms|
      invariant out == PrintLive(terms[..i])
    {
      PrintLiveAppend(terms[..i], terms[i]);
      assert terms[..i + 1] == terms[..i] + [terms[i]];
      ghost var before, sep := out, if i == 0 then "" else " AND ";
      if i > 0 {
        out := out + " AND ";
      }
      var q := QuoteTerm(terms[i]);
      assert out == before + sep;
      Assoc(before, sep + q, "*");
      Assoc(before, sep, q);
      out := out + q;
      out := out + "*";
    }
    assert terms[..|terms|] == terms;
  }

  // Fails on an empty query only: once the trimmed query is not empty it has a term, so the second check
  // for an empty query never fires. The result reads back as prefix terms, the runs of the query.
  method BuildLiveFtsQuery(raw: string) returns (r: QueryBuild)
    ensures r == Failed("empty") <==> Trimmed(raw) == ""
    ensures r.Failed? ==> r.err == "empty"
    ensures r.Built? ==> r.fts == PrintLive(Runs(Cut(Trimmed(raw), 512)))
    ensures r.Built? ==> DecodeLive(r.fts) == Some(Runs(Cut(Trimmed(raw), 512)))
  {
    var s := Trim(raw);
    TrimmedStart(raw);
    if s == "" {
      return Failed("empty");
    }
    if |s| > MAX_LIVE_QUERY {
      s := s[..MAX_LIVE_QUERY];
    }
    var terms := SplitTerms(s);
    if terms == [] {
      assert false;
      return Failed("empty");
    }
    var out := PrintLiveTerms(terms);
    DecodePrintLive(terms);
    r := Built(out);
  }

  // ----- The characters spelled out -----

  /** Blank, tab, line feed, vertical tab, form feed, carriage return. */
  predicate Separates(c: char) {
    c == ' ' || c == '\t' || c == '\n' || c as int == 11 || c as int == 12 || c == '\r'
  }

  predicate IsWord(w: string) {
    w != "" && forall c :: c in w ==> !Separates(c) && c != '"' && c != '|'
  }

  lemma WordsAreWords(w: string)
    requires IsWord(w)
    ensures forall c :: c in w ==> IsWordChar(c)
    ensures Tokens(w) == Some([Term(w)])
    ensures IsWordChar(w[0]) && IsWordChar(w[|w| - 1])
  {
    assert w[0] in w && w[|w| - 1] in w;
    BareWordIsTerm(w);
  }

  // What one character between two words makes of them.
  lemma CharBetweenWords(a: string, c: char, b: string)
    requires IsWord(a) && IsWord(b)
    ensures Tokens(a + ([c] + b)) ==
      if Separates(c) then Some([Term(a), Term(b)])
      else if c == '|' then Some([Term(a), Or, Term(b)])
      else if c == '"' then None
      else Some([Term(a + ([c] + b))])
  {
    WordsAreWords(a);
    WordsAreWords(b);
    assert ([c] + b)[1..] == b && ([c] + b)[0] == c;
    if Separates(c) || c == '|' {
      TokensJoin(a, [c] + b);
      assert Tokens([c] + b) == if c == '|' then Some([Or] + [Term(b)]) else Some([Term(b)]);
      assert [Term(a)] + [Term(b)] == [Term(a), Term(b)];
      assert [Term(a)] + ([Or] + [Term(b)]) == [Term(a), Or, Term(b)];
    } else if c == '"' {
      QuotesAppend(a, [c] + b);
      NoQuotes(a);
      NoQuotes(b);
      UnclosedIffOdd(a + ([c] + b));
    } else {
      assert IsWord(a + ([c] + b));
      WordsAreWords(a + ([c] + b));
    }
  }

  lemma {:induction false} QuotesAppend(a: string, b: string)
    ensures Quotes(a + b) == Quotes(a) + Quotes(b)
  {
    if a == "" {
      assert a + b == b;
    } else {
      QuotesAppend(a[1..], b);
      assert (a + b)[1..] == a[1..] + b;
    }
  }

  lemma {:induction false} NoQuotes(w: string)
    requires '"' !in w
    ensures Quotes(w) == 0 && Doubled(w) == w
  {
    if w != "" {
      assert w[0] in w;
      NoQuotes(w[1..]);
      assert w == [w[0]] + w[1..];
    }
  }

  lemma PlainQuoted(w: string)
    requires IsWord(w)
    ensures Quoted(w) == "\"" + w + "\""
  {
    NoQuotes(w);
  }

  lemma TwoPartsPrinted(a: string, b: string)
    ensures Print([Term(a), Term(b)]) == Quoted(a) + (" AND " + Quoted(b))
    ensures Print([Term(a), Or, Term(b)]) == Quoted(a) + (" OR " + Quoted(b))
    ensures PrintLive([a, b]) == Quoted(a) + ("* AND " + (Quoted(b) + "*"))
  {
    assert PrintFrom(true, []) == "" && PrintFrom(false, [Term(b)] + []) == Quoted(b) + "";
    hide Quoted, PrintFrom, PrintLive;
    assert [Term(a), Term(b)] == [Term(a)] + ([Term(b)] + []);
    assert [Term(a), Or, Term(b)] == [Term(a)] + ([Or] + ([Term(b)] + []));
    PrintCons(false, Term(a), [Term(b)] + []);
    PrintCons(true, Term(b), []);
    PrintCons(false, Term(a), [Or] + ([Term(b)] + []));
    PrintCons(true, Or, [Term(b)] + []);
    LivePair(a, b);
  }

  lemma LivePair(a: string, b: string)
    ensures PrintLive([a, b]) == Quoted(a) + ("* AND " + (Quoted(b) + "*"))
  {
    hide Quoted, PrintLive;
    assert [a, b] == [a] + [b] && [b] == [b] + [];
    PrintLiveCons(a, [b]);
    PrintLiveCons(b, []);
    Assoc("*", " AND ", Quoted(b) + "*");
    assert "*" + " AND " == "* AND ";
  }

  // How two words are printed, side by side and with a bar between them; and what a live query makes of
  // them.
  lemma TwoWordsPrinted(a: string, b: string)
    requires IsWord(a) && IsWord(b)
    ensures Print([Term(a), Term(b)]) == "\"" + a + "\" AND \"" + b + "\""
    ensures Print([Term(a), Or, Term(b)]) == "\"" + a + "\" OR \"" + b + "\""
    ensures PrintLive([a, b]) == "\"" + a + "\"* AND \"" + b + "\"*"
  {
    PlainQuoted(a);
    PlainQuoted(b);
    TwoPartsPrinted(a, b);
    hide Quoted, Print, PrintLive;
    var q := "\"";
    Regroup(q, a, " AND ", b, "", q + " AND " + q, q);
    Regroup(q, a, " OR ", b, "", q + " OR " + q, q);
    Regroup(q, a, "* AND ", b, "*", q + "* AND " + q, q + "*");
    assert q + " AND " + q == "\" AND \"" && q + " OR " + q == "\" OR \"" && q + "* AND " + q == "\"* AND \"";
    assert q + b + q + "" == q + b + q && q + "*" == "\"*" && q + "" == q;
  }

  lemma Regroup(q: string, a: string, mid: string, b: string, end: string, inner: string, last: string)
    requires inner == q + mid + q && last == q + end
    ensures (q + a + q) + (mid + (q + b + q + end)) == q + a + inner + b + last
  {
  }

  // A phrase with a quote in it is printed with the quote doubled.
  lemma QuoteInPhrase(a: string, b: string)
    requires '"' !in a && '"' !in b
    ensures Quoted(a + ("\"" + b)) == "\"" + a + "\"\"" + b + "\""
  {
    NoQuotes(a);
    NoQuotes(b);
    DoubledConcat(a, "\"" + b);
    assert ("\"" + b)[1..] == b;
    hide Doubled;
    Inside("\"", a, "\"\"", b);
  }

  lemma Inside(q: string, a: string, mid: string, b: string)
    ensures q + (a + (mid + b)) + q == q + a + mid + b + q
  {
  }

  lemma {:induction false} DoubledConcat(a: string, b: string)
    ensures Doubled(a + b) == Doubled(a) + Doubled(b)
  {
    if a == "" {
      assert a + b == b;
    } else {
      DoubledConcat(a[1..], b);
      assert (a + b)[1..] == a[1..] + b;
      Assoc(if a[0] == '"' then "\"\"" else [a[0]], Doubled(a[1..]), Doubled(b));
    }
  }

  // The live query splits at the same characters, and both builders trim them.
  lemma CharBetweenRuns(a: string, c: char, b: string)
    requires IsRun(a) && IsRun(b)
    ensures Runs(a + [c] + b) == if Separates(c) then [a, b] else [a + [c] + b]
  {
    hide Runs;
    if Separates(c) {
      RunsSplit(a, c, b);
      RunStands(a);
      RunStands(b);
    } else {
      RunStands(a + [c] + b);
    }
  }

  lemma CharTrimmed(c: char)
    ensures Trimmed([c]) == if Separates(c) then "" else [c]
  {
    assert IsSpace(c) <==> Separates(c);
    assert [c][1..] == "" && [c][..0] == "";
    assert DropLeading([c]) == if IsSpace(c) then "" else [c];
    assert DropTrailing([c]) == if IsSpace(c) then "" else [c];
    assert DropTrailing("") == "";
  }
}
