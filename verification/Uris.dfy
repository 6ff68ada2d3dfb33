/** One spelling for every file URI (coding_lsp/uri_utils.py): percent-decode, upper-case the drive, percent-encode. */
module Uris {
  import opened Bytes
  import opened Sequences

  // ---------------------------------------------------------------- UTF-8

  function EncodeChar(c: char): (bytes: seq<byte>)
    ensures 1 <= |bytes| <= 4
    ensures c as int < 0x80 ==> bytes == [c as byte]
    ensures c as int >= 0x80 ==> forall i :: 0 <= i < |bytes| ==> bytes[i] >= 0x80
  {
    var n := c as int;
    if n < 0x80 then [n as byte]
    else if n < 0x800 then [(0xC0 + n / 64) as byte, (0x80 + n % 64) as byte]
    else if n < 0x10000 then [(0xE0 + n / 4096) as byte, (0x80 + n / 64 % 64) as byte, (0x80 + n % 64) as byte]
    else [(0xF0 + n / 262144) as byte, (0x80 + n / 4096 % 64) as byte, (0x80 + n / 64 % 64) as byte,
        (0x80 + n % 64) as byte]
  }

  function Encode(s: string): seq<byte> {
    if s == "" then [] else Encode(s[..|s| - 1]) + EncodeChar(s[|s| - 1])
  }

  /** How many continuation bytes a lead byte asks for; none if it leads nothing. */
  function Trailing(lead: byte): (n: nat) {
    if 0xC2 <= lead <= 0xDF then 1 else if 0xE0 <= lead <= 0xEF then 2 else if 0xF0 <= lead <= 0xF4 then 3 else 0
  }

  /** The second byte rules out overlong forms, surrogates and numbers past the last character. */
  predicate Continues(lead: byte, i: nat, b: byte) {
    && 0x80 <= b <= 0xBF
    && (i == 1 ==>
          (lead == 0xE0 ==> 0xA0 <= b) && (lead == 0xED ==> b <= 0x9F) && (lead == 0xF0 ==> 0x90 <= b) &&
              (lead == 0xF4 ==> b <= 0x8F))
  }

  /** How many bytes of `s`, of the `n + 1` wanted, belong together. */
  function Together(s: seq<byte>, i: nat, n: nat): (k: nat)
    requires 1 <= i <= n + 1 && i <= |s|
    ensures i <= k <= n + 1 && k <= |s|
    ensures forall j :: i <= j < k ==> Continues(s[0], j, s[j])
    decreases n + 1 - i
  {
    if i <= n && i < |s| && Continues(s[0], i, s[i]) then Together(s, i + 1, n) else i
  }

  function Low(b: byte): int {
    b as int % 64
  }

  datatype Piece = Piece(c: char, width: nat)

  /** The first character, or U+FFFD for the longest run that could have begun one. */
  function DecodeFirst(s: seq<byte>): (p: Piece)
    requires s != []
    ensures 0 < p.width <= |s|
  {
    var lead := s[0] as int;
    var n := Trailing(s[0]);
    if lead < 0x80 then Piece(lead as char, 1)
    else
      var k := Together(s, 1, n);
      if n == 0 || k < n + 1 then Piece('\U{FFFD}', k)
      else
        assert Continues(s[0], 1, s[1]);
        if n == 1 then Piece(((lead - 0xC0) * 64 + Low(s[1])) as char, 2)
        else if n == 2 then Piece(((lead - 0xE0) * 4096 + Low(s[1]) * 64 + Low(s[2])) as char, 3)
        else Piece(((lead - 0xF0) * 262144 + Low(s[1]) * 4096 + Low(s[2]) * 64 + Low(s[3])) as char, 4)
  }

  function Decode(s: seq<byte>): string {
    if s == [] then ""
    else
      var p := DecodeFirst(s);
      [p.c] + Decode(s[p.width..])
  }

  lemma {:induction false} DecodeTwo(c: char, s: seq<byte>)
    requires 0x80 <= c as int < 0x800 && EncodeChar(c) <= s
    ensures DecodeFirst(s) == Piece(c, 2)
  {
    var e := EncodeChar(c);
    assert s[0] == e[0] && s[1] == e[1];
    assert Together(s, 1, 1) == 2;
  }

  lemma {:induction false} ThreeParts(n: int)
    requires 0x800 <= n < 0x10000
    ensures 0xE0 <= 0xE0 + n / 4096 <= 0xEF
    ensures n / 4096 * 4096 + n / 64 % 64 * 64 + n % 64 == n
    ensures n / 4096 == 0 ==> 0x20 <= n / 64 % 64
    ensures n / 4096 == 13 && n < 0xD800 ==> n / 64 % 64 < 0x20
  {
    assert n / 4096 == n / 64 / 64;
  }

  lemma {:induction false} ThreeContinue(c: char)
    requires 0x800 <= c as int < 0x10000
    ensures var e := EncodeChar(c);
            |e| == 3 && Trailing(e[0]) == 2 && Continues(e[0], 1, e[1]) && Continues(e[0], 2, e[2])
  {
    ThreeParts(c as int);
  }

  lemma {:induction false} TogetherThree(s: seq<byte>)
    requires |s| >= 3 && Continues(s[0], 1, s[1]) && Continues(s[0], 2, s[2])
    ensures Together(s, 1, 2) == 3
  {
    assert Together(s, 2, 2) == 3;
  }

  lemma {:induction false} DecodeThree(c: char, s: seq<byte>)
    requires 0x800 <= c as int < 0x10000 && EncodeChar(c) <= s
    ensures DecodeFirst(s) == Piece(c, 3)
  {
    var e := EncodeChar(c);
    ThreeContinue(c);
    assert s[0] == e[0] && s[1] == e[1] && s[2] == e[2];
    TogetherThree(s);
    ThreeParts(c as int);
  }

  lemma {:induction false} FourParts(n: int)
    requires 0x10000 <= n < 0x11_0000
    ensures 0xF0 <= 0xF0 + n / 262144 <= 0xF4
    ensures n / 262144 * 262144 + n / 4096 % 64 * 4096 + n / 64 % 64 * 64 + n % 64 == n
    ensures n / 262144 == 0 ==> 0x10 <= n / 4096 % 64
    ensures n / 262144 == 4 ==> n / 4096 % 64 < 0x10
  {
    assert n / 4096 == n / 64 / 64 && n / 262144 == n / 4096 / 64;
  }

  lemma {:induction false} FourContinue(c: char)
    requires 0x10000 <= c as int
    ensures var e := EncodeChar(c);
            |e| == 4 && Trailing(e[0]) == 3 && Continues(e[0], 1, e[1]) && Continues(e[0], 2, e[2]) &&
                Continues(e[0], 3, e[3])
  {
    FourParts(c as int);
  }

  lemma {:induction false} TogetherFour(s: seq<byte>)
    requires |s| >= 4 && Continues(s[0], 1, s[1]) && Continues(s[0], 2, s[2]) && Continues(s[0], 3, s[3])
    ensures Together(s, 1, 3) == 4
  {
    assert Together(s, 3, 3) == 4;
    assert Together(s, 2, 3) == 4;
  }

  lemma {:induction false} DecodeFour(c: char, s: seq<byte>)
    requires 0x10000 <= c as int && EncodeChar(c) <= s
    ensures DecodeFirst(s) == Piece(c, 4)
  {
    var e := EncodeChar(c);
    FourContinue(c);
    assert s[0] == e[0] && s[1] == e[1] && s[2] == e[2] && s[3] == e[3];
    TogetherFour(s);
    FourParts(c as int);
  }

  lemma {:induction false} DecodeEncodedFirst(c: char, rest: seq<byte>)
    ensures Decode(EncodeChar(c) + rest) == [c] + Decode(rest)
  {
    var s := EncodeChar(c) + rest;
    if c as int < 0x80 {
      assert s[0] == c as byte;
    } else if c as int < 0x800 {
      DecodeTwo(c, s);
    } else if c as int < 0x10000 {
      DecodeThree(c, s);
    } else {
      DecodeFour(c, s);
    }
    assert s[|EncodeChar(c)|..] == rest;
  }

  lemma {:induction false} DecodeEncodedThen(s: string, rest: seq<byte>)
    ensures Decode(Encode(s) + rest) == s + Decode(rest)
    decreases |s|
  {
    if s == "" {
      assert Encode(s) + rest == rest;
    } else {
      var init, last := s[..|s| - 1], s[|s| - 1];
      Assoc(Encode(init), EncodeChar(last), rest);
      DecodeEncodedThen(init, EncodeChar(last) + rest);
      DecodeEncodedFirst(last, rest);
      Assoc(init, [last], Decode(rest));
      assert s == init + [last];
    }
  }

  /** Decoding undoes encoding for every text. */
  lemma {:induction false} DecodeEncoded(s: string)
    ensures Decode(Encode(s)) == s
  {
    DecodeEncodedThen(s, []);
    assert Encode(s) + [] == Encode(s);
  }

  lemma {:induction false} EncodeMore(s: string, c: char)
    ensures Encode(s + [c]) == Encode(s) + EncodeChar(c)
  {
    assert (s + [c])[..|s|] == s;
  }

  // ---------------------------------------------------------------- percent-encoding

  predicate IsHex(c: char) {
    '0' <= c <= '9' || 'A' <= c <= 'F' || 'a' <= c <= 'f'
  }

  function HexValue(c: char): (n: nat)
    requires IsHex(c)
    ensures n < 16
  {
    if c <= '9' then c as int - 48 else if c <= 'F' then c as int - 55 else c as int - 87
  }

  predicate IsEscape(u: string) {
    |u| >= 3 && u[0] == '%' && IsHex(u[1]) && IsHex(u[2])
  }

  function EscapeValue(u: string): byte
    requires IsEscape(u)
  {
    (16 * HexValue(u[1]) + HexValue(u[2])) as byte
  }

  /**
    `unquote`: escapes and ASCII characters are collected as bytes and decoded as one run; a character
    beyond ASCII ends the run and stands for itself.
   */
  function UnquoteRun(u: string, run: seq<byte>): string
    decreases |u|
  {
    if u == "" then Decode(run)
    else if IsEscape(u) then UnquoteRun(u[3..], run + [EscapeValue(u)])
    else if u[0] as int < 0x80 then UnquoteRun(u[1..], run + [u[0] as byte])
    else Decode(run) + [u[0]] + UnquoteRun(u[1..], [])
  }

  function Unquote(u: string): string {
    UnquoteRun(u, [])
  }

  function HexDigit(n: nat): (c: char)
    requires n < 16
    ensures IsHex(c) && HexValue(c) == n
  {
    if n < 10 then (48 + n) as char else (55 + n) as char
  }

  predicate IsSafe(b: byte) {
    var c := b as char;
    || 'a' <= c <= 'z' || 'A' <= c <= 'Z' || '0' <= c <= '9' || c == '_' || c == '.' || c == '-' || c == '~'
    || c == '/' || c == ':' || c == '@'
  }

  function QuoteByte(b: byte): string {
    if IsSafe(b) then [b as char] else ['%', HexDigit(b as int / 16), HexDigit(b as int % 16)]
  }

  function QuoteBytes(bytes: seq<byte>): string {
    if bytes == [] then "" else QuoteByte(bytes[0]) + QuoteBytes(bytes[1..])
  }

  function Quote(s: string): string {
    QuoteBytes(Encode(s))
  }

  // ---------------------------------------------------------------- spellings

  /** `u` escapes exactly these bytes, in digits of either case. */
  ghost predicate Escapes(u: string, bytes: seq<byte>) {
    if bytes == [] then u == "" else IsEscape(u) && EscapeValue(u) == bytes[0] && Escapes(u[3..], bytes[1..])
  }

  /** A character stands for itself, unless it is `%`, or is escaped byte by byte. */
  ghost predicate SpellsChar(u: string, c: char) {
    (u == [c] && c != '%') || Escapes(u, EncodeChar(c))
  }

  /** `u` is one way to write `s` in a URI. */
  ghost predicate Spells(u: string, s: string)
    decreases |s|
  {
    if s == "" then u == ""
    else exists k :: 0 < k <= |u| && SpellsChar(u[..k], s[0]) && Spells(u[k..], s[1..])
  }

  lemma {:induction false} UnquoteEscapes(u: string, bytes: seq<byte>, rest: string, run: seq<byte>)
    requires Escapes(u, bytes)
    ensures UnquoteRun(u + rest, run) == UnquoteRun(rest, run + bytes)
    decreases |bytes|
  {
    if bytes == [] {
      assert u + rest == rest && run + bytes == run;
    } else {
      assert (u + rest)[3..] == u[3..] + rest;
      UnquoteEscapes(u[3..], bytes[1..], rest, run + [bytes[0]]);
      assert run + [bytes[0]] + bytes[1..] == run + bytes;
    }
  }

  lemma {:induction false} UnquoteLiteral(c: char, rest: string, run: seq<byte>)
    requires c != '%'
    ensures UnquoteRun([c] + rest, run) ==
            if c as int < 0x80 then UnquoteRun(rest, run + [c as byte]) else Decode(run) + [c] + UnquoteRun(rest, [])
  {
    assert ([c] + rest)[1..] == rest;
  }

  /** One character's spelling adds that character to the text decoded so far. */
  lemma {:induction false} UnquoteOne(token: string, c: char, rest: string, p: string)
    requires SpellsChar(token, c)
    ensures if token == [c] && c as int >= 0x80 then
              UnquoteRun(token + rest, Encode(p)) == p + [c] + UnquoteRun(rest, Encode(""))
            else UnquoteRun(token + rest, Encode(p)) == UnquoteRun(rest, Encode(p + [c]))
  {
    EncodeMore(p, c);
    if token == [c] && c != '%' {
      UnquoteLiteral(c, rest, Encode(p));
      DecodeEncoded(p);
    } else {
      EscapesAreLong(token, EncodeChar(c));
      UnquoteEscapes(token, EncodeChar(c), rest, Encode(p));
    }
  }

  lemma {:induction false} EscapesAreLong(u: string, bytes: seq<byte>)
    requires Escapes(u, bytes) && bytes != []
    ensures |u| >= 3
  {
  }

  lemma {:induction false} UnquoteSpelled(u: string, s: string, p: string)
    requires Spells(u, s)
    ensures UnquoteRun(u, Encode(p)) == p + s
    decreases |s|
  {
    if s == "" {
      DecodeEncoded(p);
    } else {
      var k :| 0 < k <= |u| && SpellsChar(u[..k], s[0]) && Spells(u[k..], s[1..]);
      var token, rest := u[..k], u[k..];
      assert u == token + rest;
      UnquoteOne(token, s[0], rest, p);
      UnquoteSpelled(rest, s[1..], "");
      UnquoteSpelled(rest, s[1..], p + [s[0]]);
      Moved(p, s);
    }
  }

  lemma {:induction false} Moved(p: string, s: string)
    requires s != ""
    ensures p + [s[0]] + s[1..] == p + s && "" + s[1..] == s[1..]
  {
  }

  /** Every spelling of a text decodes to that text. */
  lemma {:induction false} SpellingDecodes(u: string, s: string)
    requires Spells(u, s)
    ensures Unquote(u) == s
  {
    UnquoteSpelled(u, s, "");
  }

  lemma {:induction false} QuoteAppend(a: seq<byte>, b: seq<byte>)
    ensures QuoteBytes(a + b) == QuoteBytes(a) + QuoteBytes(b)
    decreases |a|
  {
    if a == [] {
      assert a + b == b;
    } else {
      assert (a + b)[1..] == a[1..] + b;
      QuoteAppend(a[1..], b);
    }
  }

  lemma {:induction false} QuotedEscapes(bytes: seq<byte>)
    requires forall i :: 0 <= i < |bytes| ==> !IsSafe(bytes[i])
    ensures Escapes(QuoteBytes(bytes), bytes)
  {
    if bytes != [] {
      var q := QuoteBytes(bytes);
      assert QuoteByte(bytes[0]) == q[..3] && q[3..] == QuoteBytes(bytes[1..]);
      QuotedEscapes(bytes[1..]);
    }
  }

  lemma {:induction false} QuotedChar(c: char)
    ensures SpellsChar(QuoteBytes(EncodeChar(c)), c) && QuoteBytes(EncodeChar(c)) != ""
  {
    var e := EncodeChar(c);
    if c as int < 0x80 && IsSafe(c as byte) {
      assert e[1..] == [];
      assert QuoteBytes(e) == [c];
    } else {
      QuotedEscapes(e);
    }
  }

  lemma {:induction false} EncodeFirst(s: string)
    requires s != ""
    ensures Encode(s) == EncodeChar(s[0]) + Encode(s[1..])
    decreases |s|
  {
    if |s| > 1 {
      EncodeFirst(s[..|s| - 1]);
      assert s[..|s| - 1][1..] == s[1..][..|s| - 2];
    } else {
      assert s[..0] == "" && s[1..] == "";
    }
  }

  /** `quote` writes one of the spellings. */
  lemma {:induction false} QuoteSpells(s: string)
    ensures Spells(Quote(s), s)
    decreases |s|
  {
    if s != "" {
      var token, rest := QuoteBytes(EncodeChar(s[0])), Quote(s[1..]);
      EncodeFirst(s);
      QuoteAppend(EncodeChar(s[0]), Encode(s[1..]));
      assert Quote(s) == token + rest;
      QuotedChar(s[0]);
      QuoteSpells(s[1..]);
      assert Quote(s)[..|token|] == token && Quote(s)[|token|..] == rest;
    }
  }

  lemma {:induction false} UnquoteQuoted(s: string)
    ensures Unquote(Quote(s)) == s
  {
    QuoteSpells(s);
    SpellingDecodes(Quote(s), s);
  }

  // ---------------------------------------------------------------- the canonical form

  const FILE := "file://"

  /** What upper-casing does to one character: at least one comes out, and upper-casing it again changes nothing. */
  ghost predicate Uppercases(upper: char -> string) {
    forall c :: |upper(c)| > 0 && if |upper(c)| == 1 then upper(upper(c)[0]) == upper(c) else upper(c)[1] != ':'
  }

  function UpperDrive(path: string, upper: char -> string): string {
    if |path| >= 3 && path[0] == '/' && path[2] == ':' then "/" + upper(path[1]) + path[2..] else path
  }

  /** The file that a path of a URI names. */
  function Named(path: string, upper: char -> string): string {
    UpperDrive(Unquote(path), upper)
  }

  function Canonical(uri: string, upper: char -> string): string {
    if FILE <= uri then FILE + Quote(Named(uri[|FILE|..], upper)) else uri
  }

  lemma {:induction false} UpperTwice(path: string, upper: char -> string)
    requires Uppercases(upper)
    ensures UpperDrive(UpperDrive(path, upper), upper) == UpperDrive(path, upper)
  {
    if |path| >= 3 && path[0] == '/' && path[2] == ':' {
      var up := upper(path[1]);
      var again := "/" + up + path[2..];
      if |up| == 1 {
        assert again[1] == up[0] && again[2..] == path[2..];
        assert upper(up[0]) == up;
      } else {
        assert again[2] == up[1];
      }
    }
  }

  /** The canonical form of a canonical form is itself. */
  lemma {:induction false} CanonicalTwice(uri: string, upper: char -> string)
    requires Uppercases(upper)
    ensures Canonical(Canonical(uri, upper), upper) == Canonical(uri, upper)
  {
    if FILE <= uri {
      var name := Named(uri[|FILE|..], upper);
      assert (FILE + Quote(name))[|FILE|..] == Quote(name);
      UnquoteQuoted(name);
      UpperTwice(Unquote(uri[|FILE|..]), upper);
    }
  }

  /** Two file URIs share a canonical form exactly when they name the same file. */
  lemma {:induction false} CanonicalDecides(a: string, b: string, upper: char -> string)
    ensures Canonical(FILE + a, upper) == Canonical(FILE + b, upper) <==> Named(a, upper) == Named(b, upper)
  {
    assert (FILE + a)[|FILE|..] == a && (FILE + b)[|FILE|..] == b;
    var x, y := Named(a, upper), Named(b, upper);
    if FILE + Quote(x) == FILE + Quote(y) {
      assert (FILE + Quote(x))[|FILE|..] == (FILE + Quote(y))[|FILE|..];
      UnquoteQuoted(x);
      UnquoteQuoted(y);
    }
  }

  /** However a client or server spells a path, the drive letter's case included, the canonical form is one. */
  lemma {:induction false} SpellingsAgree(a: string, b: string, s: string, t: string, upper: char -> string)
    requires Spells(a, s) && Spells(b, t) && UpperDrive(s, upper) == UpperDrive(t, upper)
    ensures Canonical(FILE + a, upper) == Canonical(FILE + b, upper)
  {
    SpellingDecodes(a, s);
    SpellingDecodes(b, t);
    CanonicalDecides(a, b, upper);
  }

  // ---------------------------------------------------------------- what the canonical form looks like

  ghost predicate OnDrive(s: string, d: char, rest: string) {
    s == "/" + [d] + ":" + rest
  }

  /** `t` is `s` with its drive letter, if it has one, in upper case. */
  ghost predicate DriveRaised(s: string, t: string, upper: char -> string) {
    if exists d, rest :: OnDrive(s, d, rest) then
      exists d, rest :: OnDrive(s, d, rest) && t == "/" + upper(d) + ":" + rest
    else t == s
  }

  lemma {:induction false} DriveShape(s: string, d: char, rest: string)
    ensures OnDrive(s, d, rest) <==> |s| >= 3 && s[0] == '/' && s[1] == d && s[2] == ':' && s[3..] == rest
  {
    var shape := "/" + [d] + ":" + rest;
    assert shape[0] == '/' && shape[1] == d && shape[2] == ':' && shape[3..] == rest;
    if |s| >= 3 && s[0] == '/' && s[1] == d && s[2] == ':' && s[3..] == rest {
      assert s == s[..3] + s[3..] && s[..3] == "/" + [d] + ":";
    }
  }

  lemma {:induction false} RaisedIs(s: string, t: string, upper: char -> string)
    ensures DriveRaised(s, t, upper) <==> t == UpperDrive(s, upper)
  {
    forall d, rest
      ensures OnDrive(s, d, rest) <==> |s| >= 3 && s[0] == '/' && s[1] == d && s[2] == ':' && s[3..] == rest {
      DriveShape(s, d, rest);
    }
    if |s| >= 3 && s[0] == '/' && s[2] == ':' {
      assert OnDrive(s, s[1], s[3..]);
      assert s[2..] == ":" + s[3..];
      Assoc("/" + upper(s[1]), ":", s[3..]);
    }
  }

  /** The canonical form of any spelling of a path quotes that path with its drive letter in upper case. */
  lemma {:induction false} CanonicalForm(a: string, s: string, t: string, upper: char -> string)
    requires Spells(a, s) && DriveRaised(s, t, upper)
    ensures Canonical(FILE + a, upper) == FILE + Quote(t)
  {
    SpellingDecodes(a, s);
    RaisedIs(s, t, upper);
    assert (FILE + a)[|FILE|..] == a;
  }

  /** A text of letters, digits and the kept marks quotes to itself. */
  lemma {:induction false} SafeQuotesItself(s: string)
    requires forall i :: 0 <= i < |s| ==> s[i] as int < 0x80 && IsSafe(s[i] as byte)
    ensures Quote(s) == s
    decreases |s|
  {
    if s != "" {
      EncodeFirst(s);
      SafeQuotesItself(s[1..]);
      assert EncodeChar(s[0]) == [s[0] as byte];
      QuoteAppend(EncodeChar(s[0]), Encode(s[1..]));
      assert QuoteBytes([s[0] as byte]) == QuoteByte(s[0] as byte) + QuoteBytes([]);
      assert s == [s[0]] + s[1..];
    }
  }

  predicate IsUpperHex(c: char) {
    '0' <= c <= '9' || 'A' <= c <= 'F'
  }

  /** Position `i` is a kept character or begins or belongs to an escape in upper-case digits. */
  ghost predicate QuotedAt(q: string, i: nat)
    requires i < |q|
  {
    if q[i] == '%' then i + 2 < |q| && IsUpperHex(q[i + 1]) && IsUpperHex(q[i + 2])
    else q[i] as int < 0x80 && IsSafe(q[i] as byte)
  }

  /** Nothing else comes out of quoting. */
  lemma {:induction false} QuotedIsPlain(bytes: seq<byte>, i: nat)
    requires i < |QuoteBytes(bytes)|
    ensures QuotedAt(QuoteBytes(bytes), i)
    decreases |bytes|
  {
    var first, rest := QuoteByte(bytes[0]), QuoteBytes(bytes[1..]);
    var q := QuoteBytes(bytes);
    assert q == first + rest;
    if i >= |first| {
      QuotedIsPlain(bytes[1..], i - |first|);
      assert q[i] == rest[i - |first|];
    }
  }

  lemma {:induction false} PercentFirst(u: string, run: seq<byte>)
    ensures UnquoteRun(u, ['%' as byte] + run) == "%" + UnquoteRun(u, run)
    decreases |u|
  {
    var more := ['%' as byte] + run;
    assert EncodeChar('%') == ['%' as byte];
    if u == "" {
      DecodeEncodedFirst('%', run);
    } else if IsEscape(u) {
      Assoc(['%' as byte], run, [EscapeValue(u)]);
      PercentFirst(u[3..], run + [EscapeValue(u)]);
    } else if u[0] as int < 0x80 {
      Assoc(['%' as byte], run, [u[0] as byte]);
      PercentFirst(u[1..], run + [u[0] as byte]);
    } else {
      DecodeEncodedFirst('%', run);
      Assoc("%", Decode(run), [u[0]] + UnquoteRun(u[1..], []));
    }
  }

  /** A percent sign without two digits behind it stands for itself. */
  lemma {:induction false} BarePercent(rest: string)
    requires !IsEscape("%" + rest)
    ensures Unquote("%" + rest) == "%" + Unquote(rest)
  {
    assert ("%" + rest)[1..] == rest;
    PercentFirst(rest, []);
    assert ['%' as byte] + [] == ['%' as byte] && [] + ['%' as byte] == ['%' as byte];
  }

  lemma {:induction false} PlainSpells(s: string)
    requires '%' !in s
    ensures Spells(s, s)
    decreases |s|
  {
    if s != "" {
      PlainSpells(s[1..]);
      assert SpellsChar(s[..1], s[0]);
    }
  }

  /** A client's `C:` and a server's `c:` meet in the upper-case form. */
  lemma {:induction false} DriveLettersMeet(d: char, up: char, rest: string, upper: char -> string)
    requires upper(d) == [up] && upper(up) == [up] && d != '%' && up != '%' && '%' !in rest
    ensures var form := Canonical(FILE + ("/" + [d] + ":" + rest), upper);
            form == Canonical(FILE + ("/" + [up] + ":" + rest), upper) == FILE + Quote("/" + [up] + ":" + rest)
  {
    var a, b := "/" + [d] + ":" + rest, "/" + [up] + ":" + rest;
    PlainSpells(a);
    PlainSpells(b);
    assert OnDrive(a, d, rest) && OnDrive(b, up, rest);
    CanonicalForm(a, a, b, upper);
    CanonicalForm(b, b, b, upper);
  }

  lemma {:induction false} DriveExample(upper: char -> string)
    requires upper('c') == "C" && upper('C') == "C"
    ensures Canonical("file:///c:/x", upper) == "file:///C:/x" && Canonical("file:///C:/x", upper) == "file:///C:/x"
  {
    DriveLettersMeet('c', 'C', "/x", upper);
    ExampleQuoted();
    ExampleTexts();
  }

  lemma {:induction false} ExampleTexts()
    ensures FILE + ("/" + ['c'] + ":" + "/x") == "file:///c:/x"
    ensures FILE + ("/" + ['C'] + ":" + "/x") == "file:///C:/x"
  {
  }

  lemma {:induction false} ExampleQuoted()
    ensures Quote("/" + "C" + ":" + "/x") == "/" + "C" + ":" + "/x"
  {
    SafeQuotesItself("/" + "C" + ":" + "/x");
  }
}
