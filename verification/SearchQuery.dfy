/**
 The MATCH string of a search (server/utils/search_query.cpp): a character scanner that splits the
 query into terms and OR operators, and a printer. The scanner is proved against a grammar, the
 printer against a reader that takes the printed string apart again.
 */
module SearchQuery {
  import opened Rows

  /** std::isspace in the C locale */
  predicate IsSpace(c: char) {
    c == ' ' || 9 <= c as int <= 13
  }

  // ----- trim -----

  function DropLeading(s: string): string {
    if s != "" && IsSpace(s[0]) then DropLeading(s[1..]) else s
  }

  function DropTrailing(s: string): string {
    if s != "" && IsSpace(s[|s| - 1]) then DropTrailing(s[..|s| - 1]) else s
  }

  function Trimmed(s: string): string {
    DropTrailing(DropLeading(s))
  }

  lemma {:induction false} DropTrailingEnds(s: string)
    ensures DropTrailing(s) <= s
    ensures DropTrailing(s) != "" ==> !IsSpace(DropTrailing(s)[|DropTrailing(s)| - 1])
    ensures s != "" && !IsSpace(s[0]) ==> DropTrailing(s) != ""
  {
    if s != "" && IsSpace(s[|s| - 1]) {
      DropTrailingEnds(s[..|s| - 1]);
    }
  }

  lemma {:induction false} DropLeadingEnds(s: string)
    ensures DropLeading(s) != "" ==> !IsSpace(DropLeading(s)[0])
  {
    if s != "" && IsSpace(s[0]) {
      DropLeadingEnds(s[1..]);
    }
  }

  // A trimmed string is empty or starts with a character that is no space.
  lemma TrimmedStart(s: string)
    ensures Trimmed(s) != "" ==> !IsSpace(Trimmed(s)[0])
  {
    DropLeadingEnds(s);
    DropTrailingEnds(DropLeading(s));
  }

  predicate AllSpace(s: string) {
    forall c :: c in s ==> IsSpace(c)
  }

  predicate BareEnds(s: string) {
    s != "" ==> !IsSpace(s[0]) && !IsSpace(s[|s| - 1])
  }

  // Putting white space around a string with bare ends is undone.
  lemma TrimUndoesPadding(left: string, core: string, right: string)
    requires AllSpace(left) && AllSpace(right) && BareEnds(core)
    ensures Trimmed(left + core + right) == core
  {
    if core == "" {
      assert left + core + right == left + right + "";
      DropLeadingPadding(left + right, "");
    } else {
      assert left + core + right == left + (core + right);
      DropLeadingPadding(left, core + right);
      DropTrailingPadding(core, right);
    }
  }

  // And white space around a string with bare ends is all that trimming ever takes.
  lemma TrimTakesPadding(s: string) returns (left: string, right: string)
    ensures s == left + Trimmed(s) + right
    ensures AllSpace(left) && AllSpace(right) && BareEnds(Trimmed(s))
  {
    left := LeadingPadding(s);
    right := TrailingPadding(DropLeading(s));
    TrimmedStart(s);
    DropTrailingEnds(DropLeading(s));
    assert s == left + (Trimmed(s) + right);
  }

  lemma {:induction false} DropLeadingPadding(left: string, s: string)
    requires AllSpace(left) && (s != "" ==> !IsSpace(s[0]))
    ensures DropLeading(left + s) == s
  {
    if left == "" {
      assert left + s == s;
    } else {
      assert left[0] in left && (left + s)[1..] == left[1..] + s;
      DropLeadingPadding(left[1..], s);
    }
  }

  lemma {:induction false} DropTrailingPadding(s: string, right: string)
    requires AllSpace(right) && (s != "" ==> !IsSpace(s[|s| - 1]))
    ensures DropTrailing(s + right) == s
    decreases |right|
  {
    if right == "" {
      assert s + right == s;
    } else {
      var all, n := s + right, |right| - 1;
      assert all[|all| - 1] == right[n] && right[n] in right;
      assert all[..|all| - 1] == s + right[..n];
      DropTrailingPadding(s, right[..n]);
    }
  }

  lemma {:induction false} LeadingPadding(s: string) returns (left: string)
    ensures s == left + DropLeading(s) && AllSpace(left)
  {
    left := "";
    if s != "" && IsSpace(s[0]) {
      var inner := LeadingPadding(s[1..]);
      left := [s[0]] + inner;
    }
  }

  lemma {:induction false} TrailingPadding(s: string) returns (right: string)
    ensures s == DropTrailing(s) + right && AllSpace(right)
  {
    right := "";
    if s != "" && IsSpace(s[|s| - 1]) {
      var inner := TrailingPadding(s[..|s| - 1]);
      right := inner + [s[|s| - 1]];
    }
  }

  method Trim(s: string) returns (r: string)
    ensures r == Trimmed(s)
  {
    var a, b := 0, |s|;
    while a < b && IsSpace(s[a])
      invariant a <= b == |s|
      invariant DropLeading(s[a..]) == DropLeading(s)
    {
      a := a + 1;
    }
    ghost var lead := s[a..];
    assert DropLeading(s) == lead && s[a..b] == lead;
    while b > a && IsSpace(s[b - 1])
      invariant a <= b <= |s|
      invariant DropTrailing(s[a..b]) == DropTrailing(lead)
    {
      assert s[a..b][..b - a - 1] == s[a..b - 1];
      b := b - 1;
    }
    r := s[a..b];
  }

  // ----- Quoting -----

  function Doubled(t: string): string {
    if t == "" then "" else (if t[0] == '"' then "\"\"" else [t[0]]) + Doubled(t[1..])
  }

  function Quoted(t: string): string {
    "\"" + Doubled(t) + "\""
  }

  lemma {:induction false} DoubledAppend(t: string, c: char)
    ensures Doubled(t + [c]) == Doubled(t) + if c == '"' then "\"\"" else [c]
  {
    if t == "" {
      assert [] + [c] == [c];
    } else {
      DoubledAppend(t[1..], c);
      assert (t + [c])[1..] == t[1..] + [c];
    }
  }

  method QuoteTerm(t: string) returns (out: string)
    ensures out == Quoted(t)
  {
    out := "\"";
    for i := 0 to |t|
      invariant out == "\"" + Doubled(t[..i])
    {
      DoubledAppend(t[..i], t[i]);
      assert t[..i + 1] == t[..i] + [t[i]];
      if t[i] == '"' {
        out := out + "\"";
      }
      out := out + [t[i]];
    }
    assert t[..|t|] == t;
    out := out + "\"";
  }

  // ----- The grammar of a query -----

  datatype Part = Or | Term(text: string)

  predicate IsWordChar(c: char) {
    !IsSpace(c) && c != '"' && c != '|'
  }

  /** The longest prefix of word characters. */
  function LeadWord(s: string): (w: string)
    ensures w <= s
    ensures |w| < |s| ==> !IsWordChar(s[|w|])
    ensures s != "" && IsWordChar(s[0]) ==> w != ""
  {
    if s != "" && IsWordChar(s[0]) then [s[0]] + LeadWord(s[1..]) else ""
  }

  datatype Phrase = Open | Closed(text: string, rest: string)

  /** Reads a phrase from behind its opening quote: a doubled quote stands for one. */
  function ReadPhrase(s: string): (p: Phrase)
    ensures p.Closed? ==> |p.rest| < |s|
  {
    if s == "" then Open
    else if s[0] != '"' then Grow(s[0], ReadPhrase(s[1..]))
    else if |s| > 1 && s[1] == '"' then Grow('"', ReadPhrase(s[2..]))
    else Closed("", s[1..])
  }

  function Grow(c: char, p: Phrase): Phrase {
    if p.Open? then Open else Closed([c] + p.text, p.rest)
  }

  function Cons(p: Part, parts: Option<seq<Part>>): Option<seq<Part>> {
    if parts.None? then None else Some([p] + parts.value)
  }

  /** The parts of a query; None if a quote is left open. */
  function Tokens(s: string): Option<seq<Part>>
    decreases |s|
  {
    if s == "" then Some([])
    else if IsSpace(s[0]) then Tokens(s[1..])
    else if s[0] == '|' then Cons(Or, Tokens(s[1..]))
    else if s[0] == '"' then AfterPhrase("", ReadPhrase(s[1..]))
    else AfterWord(s)
  }

  function AfterWord(s: string): Option<seq<Part>>
    requires s != "" && IsWordChar(s[0])
    decreases |s|, 0
  {
    Cons(Term(LeadWord(s)), Tokens(s[|LeadWord(s)|..]))
  }

  function AfterPhrase(cur: string, p: Phrase): Option<seq<Part>>
    decreases if p.Open? then 0 else |p.rest| + 1, 0
  {
    if p.Open? then None else Cons(Term(cur + p.text), Tokens(p.rest))
  }

  // ----- The scanner -----

  /** What is still to come when the scanner, in the given state, is about to read `rest`. */
  function Resume(inQuote: bool, cur: string, rest: string): Option<seq<Part>> {
    if inQuote then AfterPhrase(cur, ReadPhrase(rest))
    else if cur == "" then Tokens(rest)
    else Cons(Term(cur + LeadWord(rest)), Tokens(rest[|LeadWord(rest)|..]))
  }

  function Flush(cur: string): seq<Part> {
    if cur == "" then [] else [Term(cur)]
  }

  function Join(parts: seq<Part>, more: Option<seq<Part>>): Option<seq<Part>> {
    if more.None? then None else Some(parts + more.value)
  }

  lemma InQuoteStep(cur: string, s: string)
    requires s != ""
    ensures s[0] != '"' ==> Resume(true, cur, s) == Resume(true, cur + [s[0]], s[1..])
    ensures s[0] == '"' && |s| > 1 && s[1] == '"' ==> Resume(true, cur, s) == Resume(true, cur + "\"", s[2..])
    ensures s[0] == '"' && !(|s| > 1 && s[1] == '"') ==>
      Resume(true, cur, s) == Join([Term(cur)], Resume(false, "", s[1..]))
  {
    var p := ReadPhrase(if s[0] == '"' && |s| > 1 then s[2..] else s[1..]);
    if p.Closed? {
      assert cur + ([s[0]] + p.text) == cur + [s[0]] + p.text;
    }
    assert cur + "" == cur;
  }

  lemma WordStep(cur: string, s: string)
    requires s != "" && IsWordChar(s[0])
    ensures Resume(false, cur, s) == Resume(false, cur + [s[0]], s[1..])
  {
    var w := LeadWord(s[1..]);
    assert LeadWord(s) == [s[0]] + w;
    assert s[1..][|w|..] == s[|w| + 1..];
    assert cur + [s[0]] + w == cur + LeadWord(s);
    if cur == "" {
      assert cur + LeadWord(s) == LeadWord(s);
      assert Tokens(s) == AfterWord(s);
    }
  }

  // A character that is part of no word ends the word read so far.
  lemma WordEnds(cur: string, s: string)
    requires s != "" && !IsWordChar(s[0])
    ensures Resume(false, cur, s) == Join(Flush(cur), Tokens(s))
  {
    assert LeadWord(s) == "" && cur + "" == cur && s[0..] == s;
    JoinJoin([], [], Tokens(s));
  }

  lemma OutsideStep(cur: string, s: string)
    requires s != "" && !IsWordChar(s[0])
    ensures s[0] == '"' ==> Resume(false, cur, s) == Join(Flush(cur), Resume(true, "", s[1..]))
    ensures s[0] == '|' ==> Resume(false, cur, s) == Join(Flush(cur) + [Or], Resume(false, "", s[1..]))
    ensures IsSpace(s[0]) ==> Resume(false, cur, s) == Join(Flush(cur), Resume(false, "", s[1..]))
  {
    WordEnds(cur, s);
    JoinJoin(Flush(cur), [Or], Tokens(s[1..]));
  }

  function Rendered(p: Part): string {
    if p.Or? then "OR" else Quoted(p.text)
  }

  function RenderedAll(parts: seq<Part>): (r: seq<string>)
    ensures |r| == |parts|
    ensures forall i :: 0 <= i < |parts| ==> r[i] == Rendered(parts[i])
  {
    seq(|parts|, i requires 0 <= i < |parts| => Rendered(parts[i]))
  }

  lemma JoinJoin(a: seq<Part>, b: seq<Part>, more: Option<seq<Part>>)
    ensures Join(a, Join(b, more)) == Join(a + b, more)
    ensures Join([], more) == more
  {
    if more.Some? {
      assert a + (b + more.value) == (a + b) + more.value;
      assert [] + more.value == more.value;
    }
  }

  method FlushWord(parts: seq<string>, cur: string, ghost tokens: seq<Part>) returns (r: seq<string>)
    requires parts == RenderedAll(tokens)
    ensures r == RenderedAll(tokens + Flush(cur))
  {
    r := parts;
    if cur != "" {
      var q := QuoteTerm(cur);
      r := r + [q];
    } else {
      assert tokens + [] == tokens;
    }
  }

  /** The scanning loop: the parts as the source keeps them, "OR" or a quoted term each. */
  method ScanParts(s: string) returns (ok: bool, parts: seq<string>)
    ensures ok <==> Tokens(s).Some?
    ensures ok ==> parts == RenderedAll(Tokens(s).value)
  {
    var inQuote, cur := false, "";
    parts := [];
    ghost var done: seq<Part> := [];
    JoinJoin([], [], Tokens(s));
    var i := 0;
    while i < |s|
      invariant 0 <= i <= |s|
      invariant parts == RenderedAll(done)
      invariant Tokens(s) == Join(done, Resume(inQuote, cur, s[i..]))
    {
      var c, rest := s[i], s[i..];
      assert rest[0] == c && rest[1..] == s[i + 1..];
      if inQuote {
        InQuoteStep(cur, rest);
        if c == '"' {
          if i + 1 < |s| && s[i + 1] == '"' {
            assert rest[2..] == s[i + 2..];
            cur := cur + "\"";
            i := i + 1;
          } else {
            inQuote := false;
            JoinJoin(done, [Term(cur)], Resume(false, "", rest[1..]));
            var q := QuoteTerm(cur);
            parts, done := parts + [q], done + [Term(cur)];
            cur := "";
          }
        } else {
          cur := cur + [c];
        }
      } else {
        if IsWordChar(c) { WordStep(cur, rest); } else { OutsideStep(cur, rest); }
        if c == '"' {
          JoinJoin(done, Flush(cur), Resume(true, "", rest[1..]));
          parts := FlushWord(parts, cur, done);
          done, cur, inQuote := done + Flush(cur), "", true;
        } else if c == '|' {
          JoinJoin(done, Flush(cur) + [Or], Resume(false, "", rest[1..]));
          assert done + (Flush(cur) + [Or]) == done + Flush(cur) + [Or];
          parts := FlushWord(parts, cur, done);
          parts, done, cur := parts + ["OR"], done + Flush(cur) + [Or], "";
        } else if IsSpace(c) {
          JoinJoin(done, Flush(cur), Resume(false, "", rest[1..]));
          parts := FlushWord(parts, cur, done);
          done, cur := done + Flush(cur), "";
        } else {
          cur := cur + [c];
        }
      }
      i := i + 1;
    }
    assert s[i..] == "" && cur + "" == cur;
    ok := !inQuote;
    if ok {
      parts := FlushWord(parts, cur, done);
      assert [Term(cur)] + [] == [Term(cur)];
      assert Resume(false, cur, "") == Some(Flush(cur));
    }
  }

  // ----- The printer -----

  /** What is printed for one part; a term that follows a term is joined to it by AND. */
  function Chunk(needAnd: bool, p: Part): string {
    if p.Or? then " OR " else if needAnd then " AND " + Quoted(p.text) else Quoted(p.text)
  }

  function PrintFrom(needAnd: bool, parts: seq<Part>): string
    decreases |parts|
  {
    if parts == [] then "" else Chunk(needAnd, parts[0]) + PrintFrom(parts[0].Term?, parts[1..])
  }

  function Print(parts: seq<Part>): string {
    PrintFrom(false, parts)
  }

  lemma OrIsNoTerm(p: Part)
    ensures Rendered(p) == "OR" <==> p.Or?
  {
    if p.Term? {
      assert Rendered(p)[0] == '"';
    }
  }

  /** The printing loop, with the parts as the source keeps them. */
  method PrintParts(parts: seq<string>, ghost tokens: seq<Part>) returns (out: string)
    requires parts == RenderedAll(tokens)
    ensures out == Print(tokens)
  {
    out := "";
    var needAnd := false;
    assert tokens[0..] == tokens && out + Print(tokens) == Print(tokens);
    assert PrintFrom(true, []) == "" == PrintFrom(false, []);
    hide Chunk, PrintFrom, Quoted;
    for i := 0 to |parts|
      invariant out + PrintFrom(needAnd, tokens[i..]) == Print(tokens)
    {
      OrIsNoTerm(tokens[i]);
      PrintStep(out, needAnd, tokens[i..]);
      AppendChunk(out, needAnd, tokens[i]);
      assert tokens[i..][0] == tokens[i] && tokens[i..][1..] == tokens[i + 1..];
      if parts[i] == "OR" {
        out := out + " OR ";
        needAnd := false;
      } else {
        if needAnd {
          out := out + " AND ";
        }
        out := out + parts[i];
        needAnd := true;
      }
    }
    assert out + "" == out;
  }

  lemma AppendChunk(out: string, needAnd: bool, p: Part)
    ensures out + Chunk(needAnd, p) ==
      if p.Or? then out + " OR " else if needAnd then (out + " AND ") + Quoted(p.text) else out + Quoted(p.text)
  {
  }

  lemma PrintStep(out: string, needAnd: bool, parts: seq<Part>)
    requires parts != []
    ensures out + PrintFrom(needAnd, parts) == (out + Chunk(needAnd, parts[0])) + PrintFrom(parts[0].Term?, parts[1..])
  {
  }

  // ----- Reading a printed query back -----

  /** Takes a MATCH string apart; strict about where AND stands. */
  function DecodeFrom(needAnd: bool, q: string): Option<seq<Part>>
    decreases |q|
  {
    if q == "" then Some([])
    else if " OR " <= q then Cons(Or, DecodeFrom(false, q[4..]))
    else
      var body := if !needAnd then q else if " AND " <= q then q[5..] else "";
      if body == "" || body[0] != '"' then None
      else
        var p := ReadPhrase(body[1..]);
        if p.Open? then None else Cons(Term(p.text), DecodeFrom(true, p.rest))
  }

  function Decode(q: string): Option<seq<Part>> {
    DecodeFrom(false, q)
  }

  lemma {:induction false} ReadQuoted(t: string, rest: string)
    requires rest == "" || rest[0] != '"'
    ensures ReadPhrase(Doubled(t) + "\"" + rest) == Closed(t, rest)
  {
    var s := Doubled(t) + "\"" + rest;
    if t == "" {
      assert s == "\"" + rest && s[1..] == rest;
    } else {
      ReadQuoted(t[1..], rest);
      var tail := Doubled(t[1..]) + "\"" + rest;
      if t[0] == '"' {
        assert s == "\"\"" + tail && s[2..] == tail;
      } else {
        assert s == [t[0]] + tail && s[1..] == tail;
      }
      assert [t[0]] + t[1..] == t;
    }
  }

  // Behind the opening quote of a quoted term stands the phrase that reads as the term.
  lemma QuotedStart(t: string, rest: string)
    requires rest == "" || rest[0] != '"'
    ensures var q := Quoted(t) + rest;
      q != "" && q[0] == '"' && ReadPhrase(q[1..]) == Closed(t, rest)
  {
    ReadQuoted(t, rest);
    hide ReadPhrase, Doubled;
    assert (Quoted(t) + rest)[1..] == Doubled(t) + "\"" + rest;
  }

  lemma PrintStart(parts: seq<Part>)
    ensures PrintFrom(true, parts) == "" || PrintFrom(true, parts)[0] == ' '
  {
  }

  lemma DecodeOr(needAnd: bool, q: string)
    ensures DecodeFrom(needAnd, " OR " + q) == Cons(Or, DecodeFrom(false, q))
  {
  }

  lemma DecodeAtQuote(q: string)
    requires q != "" && q[0] == '"' && ReadPhrase(q[1..]).Closed?
    ensures DecodeFrom(false, q) == Cons(Term(ReadPhrase(q[1..]).text), DecodeFrom(true, ReadPhrase(q[1..]).rest))
  {
  }

  lemma DecodeQuoted(t: string, rest: string)
    requires rest == "" || rest[0] != '"'
    ensures DecodeFrom(false, Quoted(t) + rest) == Cons(Term(t), DecodeFrom(true, rest))
  {
    hide DecodeFrom, ReadPhrase, Quoted;
    QuotedStart(t, rest);
    DecodeAtQuote(Quoted(t) + rest);
  }

  lemma DecodeAnd(q: string)
    requires q != "" && q[0] == '"'
    ensures DecodeFrom(true, " AND " + q) == DecodeFrom(false, q)
  {
    hide ReadPhrase;
    var r := " AND " + q;
    assert r[5..] == q && r[..5] == " AND " && r[1] == 'A';
  }

  lemma DecodeChunk(needAnd: bool, p: Part, rest: string)
    requires p.Or? || rest == "" || rest[0] != '"'
    ensures DecodeFrom(needAnd, Chunk(needAnd, p) + rest) == Cons(p, DecodeFrom(p.Term?, rest))
  {
    if p.Or? {
      DecodeOr(needAnd, rest);
    } else {
      DecodeQuoted(p.text, rest);
      if needAnd {
        DecodeAnd(Quoted(p.text) + rest);
        assert Chunk(true, p) + rest == " AND " + (Quoted(p.text) + rest);
      }
    }
  }

  lemma {:induction false} DecodePrintFrom(needAnd: bool, parts: seq<Part>)
    ensures DecodeFrom(needAnd, PrintFrom(needAnd, parts)) == Some(parts)
    decreases |parts|
  {
    hide Chunk, DecodeFrom;
    if parts != [] {
      DecodePrintFrom(parts[0].Term?, parts[1..]);
      PrintStart(parts[1..]);
      DecodeChunk(needAnd, parts[0], PrintFrom(parts[0].Term?, parts[1..]));
      assert parts == [parts[0]] + parts[1..];
    } else {
      DecodeNothing(needAnd);
    }
  }

  lemma DecodeNothing(needAnd: bool)
    ensures DecodeFrom(needAnd, "") == Some([])
  {
  }

  lemma {:induction false} DoubledRead(s: string)
    requires ReadPhrase(s).Closed?
    ensures s == Doubled(ReadPhrase(s).text) + "\"" + ReadPhrase(s).rest
  {
    if s[0] != '"' {
      DoubledRead(s[1..]);
    } else if |s| > 1 && s[1] == '"' {
      DoubledRead(s[2..]);
      assert s == "\"\"" + s[2..];
    } else {
      assert s == "\"" + s[1..];
    }
  }

  lemma SplitAtQuote(body: string) returns (p: Part, rest: string)
    requires body != "" && body[0] == '"' && ReadPhrase(body[1..]).Closed?
    ensures p.Term? && p.text == ReadPhrase(body[1..]).text && rest == ReadPhrase(body[1..]).rest
    ensures |rest| < |body| && body == Quoted(p.text) + rest
  {
    var r := ReadPhrase(body[1..]);
    p, rest := Term(r.text), r.rest;
    DoubledRead(body[1..]);
    assert body == "\"" + body[1..];
  }

  // A string that can be decoded starts with the chunk of its first part.
  lemma DecodeSplit(needAnd: bool, q: string) returns (p: Part, rest: string)
    requires q != "" && DecodeFrom(needAnd, q).Some?
    ensures |rest| < |q| && q == Chunk(needAnd, p) + rest
    ensures DecodeFrom(p.Term?, rest).Some? && DecodeFrom(needAnd, q) == Cons(p, DecodeFrom(p.Term?, rest))
  {
    hide ReadPhrase, Quoted;
    if " OR " <= q {
      p, rest := Or, q[4..];
      assert q == " OR " + rest;
    } else if needAnd {
      p, rest := SplitAtQuote(q[5..]);
      assert q == " AND " + q[5..];
      assert " AND " + (Quoted(p.text) + rest) == (" AND " + Quoted(p.text)) + rest;
    } else {
      p, rest := SplitAtQuote(q);
    }
  }

  lemma {:induction false} PrintDecodeFrom(needAnd: bool, q: string)
    requires DecodeFrom(needAnd, q).Some?
    ensures PrintFrom(needAnd, DecodeFrom(needAnd, q).value) == q
    decreases |q|
  {
    if q == "" {
    } else {
      var p, rest := DecodeSplit(needAnd, q);
      PrintDecodeFrom(p.Term?, rest);
      PrintCons(needAnd, p, DecodeFrom(p.Term?, rest).value);
    }
  }

  lemma PrintCons(needAnd: bool, p: Part, parts: seq<Part>)
    ensures PrintFrom(needAnd, [p] + parts) == Chunk(needAnd, p) + PrintFrom(p.Term?, parts)
  {
  }

  // Printing is unambiguous, in both directions: a printed query reads back as its parts, whatever the
  // terms contain, and whatever reads back as parts is what those parts print as.
  lemma PrintingIsUnambiguous(parts: seq<Part>, q: string)
    ensures Decode(q) == Some(parts) <==> q == Print(parts)
  {
    DecodePrintFrom(false, parts);
    if Decode(q).Some? {
      PrintDecodeFrom(false, q);
    }
  }
}
