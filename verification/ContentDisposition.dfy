/**
 The Content-Disposition header of a download (server/http/download_response.cpp): an ASCII fallback
 name in quotes, and the exact name percent-encoded (section 3.2 of RFC 5987, section 4 of RFC 6266).
 */
module ContentDisposition {
  import opened Rows

  type Bytes = s: string | forall c :: c in s ==> c as int < 256

  // ----- The fallback name -----

  predicate IsPlain(c: char) {
    0x20 <= c as int <= 0x7e && c != '"' && c != '\\' && c != ';'
  }

  function Fallback(filename: string): string {
    if filename == "" then "download" else Masked(filename)
  }

  function Masked(s: string): (r: string)
    ensures |r| == |s|
    ensures forall i :: 0 <= i < |s| ==> r[i] == if IsPlain(s[i]) then s[i] else '_'
  {
    seq(|s|, i requires 0 <= i < |s| => if IsPlain(s[i]) then s[i] else '_')
  }

  method AsciiFallbackFilename(filename: string) returns (out: string)
    ensures out == Fallback(filename)
  {
    out := "";
    for i := 0 to |filename|
      invariant out == Masked(filename)[..i]
    {
      if IsPlain(filename[i]) {
        out := out + [filename[i]];
      } else {
        out := out + ['_'];
      }
    }
    if out == "" {
      out := "download";
    }
  }

  // A fallback name can stand between quotes as it is, and a plain name is its own fallback.
  lemma FallbackIsPlain(filename: string)
    ensures Fallback(filename) != "" && forall c :: c in Fallback(filename) ==> IsPlain(c)
    ensures Fallback(filename) == filename <==> filename != "" && forall c :: c in filename ==> IsPlain(c)
  {
  }

  // ----- Percent-encoding -----

  /** Unreserved characters, section 2.3 of RFC 3986 */
  predicate IsUnreserved(c: char) {
    'A' <= c <= 'Z' || 'a' <= c <= 'z' || '0' <= c <= '9' || c in {'-', '.', '_', '~'}
  }

  function HexDigit(n: int): char
    requires 0 <= n < 16
  {
    if n < 10 then ('0' as int + n) as char else ('A' as int + (n - 10)) as char
  }

  function HexValue(c: char): Option<int> {
    if '0' <= c <= '9' then Some(c as int - '0' as int)
    else if 'A' <= c <= 'F' then Some(c as int - 'A' as int + 10)
    else if 'a' <= c <= 'f' then Some(c as int - 'a' as int + 10)
    else None
  }

  function EncodeByte(c: char): string
    requires c as int < 256
  {
    if IsUnreserved(c) then [c] else ['%', HexDigit(c as int / 16), HexDigit(c as int % 16)]
  }

  function Encode(s: Bytes): string {
    if s == "" then "" else assert s[0] in s; EncodeByte(s[0]) + Encode(Tail(s))
  }

  function Tail(s: Bytes): (r: Bytes)
    requires s != ""
    ensures r == s[1..]
  {
    assert forall c :: c in s[1..] ==> c in s;
    s[1..]
  }

  lemma {:induction false} EncodeAppend(s: Bytes, c: char)
    requires c as int < 256
    ensures Encode(s + [c]) == Encode(s) + EncodeByte(c)
  {
    hide EncodeByte;
    if s == "" {
      assert s + [c] == [c] && [c][1..] == "";
      assert EncodeByte(c) + "" == EncodeByte(c) && "" + EncodeByte(c) == EncodeByte(c);
    } else {
      assert s[0] in s;
      EncodeAppend(Tail(s), c);
      assert (s + [c])[1..] == s[1..] + [c];
      Assoc(EncodeByte(s[0]), Encode(Tail(s)), EncodeByte(c));
    }
  }

  method PercentEncodeUtf8(value: Bytes) returns (out: string)
    ensures out == Encode(value)
  {
    out := "";
    for i := 0 to |value|
      invariant (forall c :: c in value[..i] ==> c as int < 256) && out == Encode(value[..i])
    {
      var ch := value[i];
      assert ch in value;
      EncodeAppend(value[..i], ch);
      assert value[..i + 1] == value[..i] + [ch];
      if IsUnreserved(ch) {
        out := out + [ch];
      } else {
        out := out + ['%', HexDigit(ch as int / 16), HexDigit(ch as int % 16)];
      }
    }
    assert value[..|value|] == value;
  }

  /** Percent-decoding, section 2.1 of RFC 3986; strict about what may stand unescaped. */
  function PercentDecode(s: string): Option<string>
    decreases |s|
  {
    if s == "" then Some("")
    else if s[0] == '%' then
      if |s| < 3 || HexValue(s[1]).None? || HexValue(s[2]).None? then None
      else Prepend((16 * HexValue(s[1]).value + HexValue(s[2]).value) as char, PercentDecode(s[3..]))
    else if IsUnreserved(s[0]) then Prepend(s[0], PercentDecode(s[1..]))
    else None
  }

  function Prepend(c: char, s: Option<string>): Option<string> {
    if s.None? then None else Some([c] + s.value)
  }

  lemma DecodeByte(c: char, rest: string)
    requires c as int < 256
    ensures PercentDecode(EncodeByte(c) + rest) == Prepend(c, PercentDecode(rest))
  {
  }

  // Decoding gives back every byte of the name; so different names have different encodings.
  lemma {:induction false} EncodingRoundTrip(s: Bytes)
    ensures PercentDecode(Encode(s)) == Some(s)
  {
    if s != "" {
      assert s[0] in s;
      EncodingRoundTrip(Tail(s));
      DecodeByte(s[0], Encode(Tail(s)));
      assert [s[0]] + s[1..] == s;
    }
  }

  lemma EncodingInjective(s: Bytes, t: Bytes)
    requires Encode(s) == Encode(t)
    ensures s == t
  {
    EncodingRoundTrip(s);
    EncodingRoundTrip(t);
  }

  function Escapes(s: string): nat {
    if s == "" then 0 else (if IsUnreserved(s[0]) then 0 else 1) + Escapes(s[1..])
  }

  // Only unreserved characters and % appear, and each byte takes one character or three.
  lemma {:induction false} EncodingShape(s: Bytes)
    ensures |Encode(s)| == |s| + 2 * Escapes(s) && Escapes(s) <= |s|
    ensures forall c :: c in Encode(s) ==> IsUnreserved(c) || c == '%'
  {
    if s != "" {
      assert s[0] in s;
      EncodingShape(Tail(s));
    }
  }

  // ----- The characters that appear, one by one -----

  predicate IsUpperHex(c: char) {
    '0' <= c <= '9' || c in "ABCDEF"
  }

  /** Letters, digits and - . _ ~ stay as they are. */
  predicate StaysAsItIs(c: char) {
    'A' <= c <= 'Z' || 'a' <= c <= 'z' || '0' <= c <= '9' || c in "-._~"
  }

  // Nothing else goes out unescaped, and % stands before two upper-case digits.
  lemma {:induction false} EncodingAlphabet(s: Bytes)
    ensures forall i :: 0 <= i < |Encode(s)| ==> StaysAsItIs(Encode(s)[i]) || Encode(s)[i] == '%'
    ensures forall i :: 0 <= i < |Encode(s)| && Encode(s)[i] == '%' ==>
      i + 2 < |Encode(s)| && IsUpperHex(Encode(s)[i + 1]) && IsUpperHex(Encode(s)[i + 2])
  {
    if s != "" {
      assert s[0] in s;
      EncodingAlphabet(Tail(s));
    }
  }

  // A name is its own encoding exactly if it has no other characters.
  lemma {:induction false} EncodedAsItIs(s: Bytes)
    ensures Encode(s) == s <==> forall i :: 0 <= i < |s| ==> StaysAsItIs(s[i])
  {
    if s != "" {
      assert s[0] in s;
      EncodedAsItIs(Tail(s));
      EncodingShape(Tail(s));
      assert s == [s[0]] + Tail(s);
      assert forall i :: 0 < i < |s| ==> s[i] == Tail(s)[i - 1];
    }
  }

  lemma HexTable(n: int)
    requires 0 <= n < 16
    ensures HexDigit(n) == "0123456789ABCDEF"[n]
  {
  }

  lemma EscapedByte(c: char)
    requires c as int < 256
    ensures Encode([c]) == if StaysAsItIs(c) then [c]
                           else ['%', "0123456789ABCDEF"[c as int / 16], "0123456789ABCDEF"[c as int % 16]]
  {
    HexTable(c as int / 16);
    HexTable(c as int % 16);
    hide HexDigit;
    assert [c][1..] == "" && EncodeByte(c) + "" == EncodeByte(c);
  }

  // The fallback of an empty name is "download"; else it replaces control characters, bytes above 126,
  // quotes, backslashes and semicolons by underscores, and nothing more.
  lemma FallbackMasks(filename: string)
    ensures filename == "" ==> Fallback(filename) == "download"
    ensures filename != "" ==> |Fallback(filename)| == |filename|
    ensures forall i :: 0 <= i < |filename| ==>
      Fallback(filename)[i] ==
        if filename[i] as int < 32 || filename[i] as int > 126 || filename[i] in "\"\\;" then '_' else filename[i]
  {
  }

  lemma HeaderParts(disposition: string, filename: Bytes)
    ensures Header(disposition, filename) ==
      disposition + "; filename=\"" + Fallback(filename) + "\"; filename*=UTF-8''" + Encode(filename)
  {
    hide Fallback, Encode;
  }

  // A name that needs no escaping stands twice in the header.
  lemma HeaderOfSimpleName(disposition: string, filename: Bytes)
    requires filename != "" && forall i :: 0 <= i < |filename| ==> StaysAsItIs(filename[i])
    ensures Header(disposition, filename) ==
      disposition + "; filename=\"" + filename + "\"; filename*=UTF-8''" + filename
  {
    EncodedAsItIs(filename);
    SimpleFallback(filename);
    hide *;
    HeaderParts(disposition, filename);
  }

  lemma SimpleFallback(filename: string)
    requires filename != "" && forall i :: 0 <= i < |filename| ==> StaysAsItIs(filename[i])
    ensures Fallback(filename) == filename
  {
  }

  // ----- The header -----

  const NAME := "; filename=\""
  const EXACT_NAME := "\"; filename*=UTF-8''"

  function Header(disposition: string, filename: Bytes): string {
    disposition + NAME + Fallback(filename) + EXACT_NAME + Encode(filename)
  }

  method BuildHeader(disposition: string, filename: Bytes) returns (header: string)
    ensures header == Header(disposition, filename)
  {
    hide Fallback, Encode;
    var fallback := AsciiFallbackFilename(filename);
    var encoded := PercentEncodeUtf8(filename);
    var named := disposition + "; filename=\"" + fallback;
    header := named + "\"" + "; filename*=UTF-8''" + encoded;
    Assoc(named, "\"", "; filename*=UTF-8''");
    assert "\"" + "; filename*=UTF-8''" == EXACT_NAME;
  }

  /** The part of `s` before the first `c`. */
  function Before(s: string, c: char): (r: string)
    ensures r <= s && c !in r
    ensures |r| < |s| ==> s[|r|] == c
  {
    if s == "" || s[0] == c then "" else [s[0]] + Before(s[1..], c)
  }

  datatype Parsed = Malformed | Parsed(disposition: string, fallback: string, encoded: string)

  /** A reader that splits the header at its first ; and the name at the next quote. */
  function ReadHeader(h: string): Parsed {
    ReadWith(NAME, EXACT_NAME, h)
  }

  function ReadWith(name: string, exact: string, h: string): Parsed {
    var d := Field(h, name, ';');
    if d.None? then Malformed
    else
      var f := Field(d.value.1, exact, '"');
      if f.None? then Malformed else Parsed(d.value.0, f.value.0, f.value.1)
  }

  /** The part before the first `c`, and the part behind `glue`, which has to stand there. */
  function Field(h: string, glue: string, c: char): Option<(string, string)> {
    var d := Before(h, c);
    if glue <= h[|d|..] then Some((d, h[|d| + |glue|..])) else None
  }

  lemma FieldOf(a: string, glue: string, rest: string, c: char)
    requires glue != "" && glue[0] == c && c !in a
    ensures Field(a + (glue + rest), glue, c) == Some((a, rest))
  {
    BeforeExact(a, c, glue + rest);
    Dropped(a, glue, rest);
    hide Before;
  }

  lemma {:induction false} BeforeExact(a: string, c: char, rest: string)
    requires c !in a && rest != "" && rest[0] == c
    ensures Before(a + rest, c) == a
  {
    if a == "" {
      assert a + rest == rest;
    } else {
      assert a[0] in a;
      BeforeExact(a[1..], c, rest);
      assert (a + rest)[1..] == a[1..] + rest;
      assert [a[0]] + a[1..] == a;
    }
  }

  lemma ReadParts(name: string, exact: string, d: string, f: string, e: string)
    requires name != "" && name[0] == ';' && exact != "" && exact[0] == '"'
    requires ';' !in d && '"' !in f
    ensures ReadWith(name, exact, d + (name + (f + (exact + e)))) == Parsed(d, f, e)
  {
    hide Field;
    FieldOf(d, name, f + (exact + e), ';');
    FieldOf(f, exact, e, '"');
  }

  lemma Dropped(a: string, b: string, c: string)
    ensures (a + (b + c))[|a|..] == b + c && (a + (b + c))[|a| + |b|..] == c && b <= b + c
  {
  }

  // For every disposition without a ; and every filename, the reader recovers the disposition, the
  // fallback and the encoded name, and decoding the latter gives the filename.
  lemma HeaderRoundTrip(disposition: string, filename: Bytes)
    requires ';' !in disposition
    ensures ReadHeader(Header(disposition, filename)) ==
      Parsed(disposition, Fallback(filename), Encode(filename))
    ensures PercentDecode(ReadHeader(Header(disposition, filename)).encoded) == Some(filename)
  {
    var f, e := Fallback(filename), Encode(filename);
    FallbackIsPlain(filename);
    EncodingRoundTrip(filename);
    assert NAME[0] == ';' && EXACT_NAME[0] == '"';
    hide Fallback, Encode, ReadWith;
    ReadParts(NAME, EXACT_NAME, disposition, f, e);
    Assoc(disposition, NAME, f + (EXACT_NAME + e));
    Assoc(disposition + NAME, f, EXACT_NAME + e);
    Assoc(disposition + NAME + f, EXACT_NAME, e);
  }
}
