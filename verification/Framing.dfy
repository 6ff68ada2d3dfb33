/** Content-Length framing of messages (coding_lsp/lsp_bridge.py). */
module Framing {
  import opened Bytes
  import opened Sequences
  import opened Wrappers

  // ---------------------------------------------------------------- numbers

  function Digit(n: nat): byte
    requires n < 10
  {
    (48 + n) as byte
  }

  function Decimal(n: nat): seq<byte> {
    if n < 10 then [Digit(n)] else Decimal(n / 10) + [Digit(n % 10)]
  }

  predicate IsDigit(b: byte) {
    48 <= b <= 57
  }

  function Value(digits: seq<byte>): nat
    requires forall i :: 0 <= i < |digits| ==> IsDigit(digits[i])
  {
    if digits == [] then 0
    else
      assert IsDigit(digits[|digits| - 1]);
      10 * Value(digits[..|digits| - 1]) + (digits[|digits| - 1] as int - 48)
  }

  lemma {:induction false} DecimalValue(n: nat)
    ensures Decimal(n) != [] && (forall i :: 0 <= i < |Decimal(n)| ==> IsDigit(Decimal(n)[i]))
    ensures Value(Decimal(n)) == n
  {
    if n >= 10 {
      DecimalValue(n / 10);
      assert Decimal(n)[..|Decimal(n)| - 1] == Decimal(n / 10);
    } else {
      assert Decimal(n)[..0] == [];
    }
  }

  predicate IsTextSpace(b: byte) {
    b == 32 || 9 <= b <= 13 || 28 <= b <= 31
  }

  function StripText(s: seq<byte>): seq<byte> {
    if s != [] && IsTextSpace(s[0]) then StripText(s[1..])
    else if s != [] && IsTextSpace(s[|s| - 1]) then StripText(s[..|s| - 1])
    else s
  }

  /** `int(text)` for an optional sign and decimal digits. */
  function ParseInt(s: seq<byte>): Option<int> {
    var signed := s != [] && (s[0] == 43 || s[0] == 45);
    var digits := if signed then s[1..] else s;
    if digits == [] || exists i :: 0 <= i < |digits| && !IsDigit(digits[i]) then None
    else Some(if signed && s[0] == 45 then -(Value(digits) as int) else Value(digits))
  }

  // ---------------------------------------------------------------- headers

  const CRLF: seq<byte> := [CR, LF]

  /** "content-length:" */
  const LENGTH_FIELD: seq<byte> := [99, 111, 110, 116, 101, 110, 116, 45, 108, 101, 110, 103, 116, 104, 58]

  /** "Content-Length: " */
  const LENGTH_PREFIX: seq<byte> := [67, 111, 110, 116, 101, 110, 116, 45, 76, 101, 110, 103, 116, 104, 58, 32]

  function Lower(s: seq<byte>): seq<byte> {
    seq(|s|, i requires 0 <= i < |s| => if 65 <= s[i] <= 90 then s[i] + 32 else s[i])
  }

  function SplitCRLF(s: seq<byte>): (lines: seq<seq<byte>>)
    ensures lines != []
    decreases |s|
  {
    if s == [] then [[]]
    else if |s| > 1 && s[..2] == CRLF then [[]] + SplitCRLF(s[2..])
    else
      var rest := SplitCRLF(s[1..]);
      [[s[0]] + rest[0]] + rest[1..]
  }

  function Ascii(s: seq<byte>): seq<byte> {
    if s == [] then [] else (if s[0] < 128 then [s[0]] else []) + Ascii(s[1..])
  }

  predicate IsLengthLine(line: seq<byte>) {
    LENGTH_FIELD <= Lower(line)
  }

  /** The first content-length field decides; a malformed one yields nothing. */
  function LengthIn(lines: seq<seq<byte>>): Option<int> {
    if lines == [] then None
    else if IsLengthLine(lines[0]) then ParseInt(StripText(lines[0][|LENGTH_FIELD|..]))
    else LengthIn(lines[1..])
  }

  function ContentLength(header: seq<byte>): Option<int> {
    LengthIn(SplitCRLF(Ascii(header)))
  }

  /** `readline`: through the first line feed, or everything that is left. */
  function LineLength(s: seq<byte>): (n: nat)
    ensures n <= |s| && (s != [] ==> n > 0)
  {
    if s == [] then 0 else if s[0] == LF then 1 else 1 + LineLength(s[1..])
  }

  predicate EndsHeader(line: seq<byte>) {
    line == CRLF || line == [LF] || line == []
  }

  /** How many bytes the header block takes: lines up to and including an empty one. */
  function HeaderLength(s: seq<byte>): (n: nat)
    ensures n <= |s|
    decreases |s|
  {
    var line := s[..LineLength(s)];
    if EndsHeader(line) then |line| else |line| + HeaderLength(s[|line|..])
  }

  // ---------------------------------------------------------------- one message

  /** What reading one message from a stream yields, and what it leaves unread. */
  datatype Step = Step(body: Option<seq<byte>>, rest: seq<byte>)

  function DecodeOne(s: seq<byte>): Step {
    var n := HeaderLength(s);
    match ContentLength(s[..n])
    case None => Step(None, s[n..])
    case Some(length) =>
      if length <= 0 then Step(Some([]), s[n..])
      else if |s| - n >= length then Step(Some(s[n..n + length]), s[n + length..])
      else Step(None, [])
  }

  function Encode(payload: seq<byte>): seq<byte> {
    LENGTH_PREFIX + Decimal(|payload|) + CRLF + CRLF + payload
  }

  lemma {:induction false} LineThroughFeed(line: seq<byte>, rest: seq<byte>)
    requires LF !in line
    ensures LineLength(line + [LF] + rest) == |line| + 1
  {
    if line == [] {
      assert (line + [LF] + rest)[0] == LF;
    } else {
      LineThroughFeed(line[1..], rest);
      assert (line + [LF] + rest)[1..] == line[1..] + [LF] + rest;
    }
  }

  lemma {:induction false} SplitFirst(line: seq<byte>, rest: seq<byte>)
    requires CR !in line
    ensures SplitCRLF(line + CRLF + rest)[0] == line
  {
    var s := line + CRLF + rest;
    if line == [] {
      assert s[..2] == CRLF;
    } else {
      assert s[0] == line[0];
      SplitFirst(line[1..], rest);
      assert s[1..] == line[1..] + CRLF + rest;
    }
  }

  lemma {:induction false} AllAscii(s: seq<byte>)
    requires forall i :: 0 <= i < |s| ==> s[i] < 128
    ensures Ascii(s) == s
  {
    if s != [] {
      AllAscii(s[1..]);
    }
  }

  function FieldLine(n: nat): seq<byte> {
    LENGTH_PREFIX + Decimal(n)
  }

  lemma {:induction false} FieldLineIsPlain(n: nat)
    ensures forall i :: 0 <= i < |FieldLine(n)| ==>
              FieldLine(n)[i] < 128 && FieldLine(n)[i] != CR && FieldLine(n)[i] != LF
  {
    DecimalValue(n);
  }

  lemma {:induction false} FieldLineParses(n: nat)
    ensures IsLengthLine(FieldLine(n)) && ParseInt(StripText(FieldLine(n)[|LENGTH_FIELD|..])) == Some(n)
  {
    DecimalValue(n);
    var line, digits := FieldLine(n), Decimal(n);
    assert forall i :: 0 <= i < |LENGTH_FIELD| ==> Lower(line)[i] == LENGTH_FIELD[i];
    assert Lower(line)[..|LENGTH_FIELD|] == LENGTH_FIELD;
    assert line[|LENGTH_FIELD|..] == [32] + digits;
    assert ([32] + digits)[1..] == digits;
    assert IsDigit(digits[0]) && IsDigit(digits[|digits| - 1]);
    assert StripText(digits) == digits;
  }

  lemma {:induction false} HeaderOfEncoded(n: nat, rest: seq<byte>)
    ensures HeaderLength(FieldLine(n) + CRLF + CRLF + rest) == |FieldLine(n)| + 4
    ensures ContentLength(FieldLine(n) + CRLF + CRLF) == Some(n)
  {
    var field := FieldLine(n);
    FieldLineIsPlain(n);
    var s, first := field + CRLF + CRLF + rest, field + [CR];
    assert s == first + [LF] + (CRLF + rest);
    assert LF !in first;
    LineThroughFeed(first, CRLF + rest);
    assert s[..|first| + 1] == field + CRLF;
    assert (field + CRLF)[0] == 67;
    var after := s[|first| + 1..];
    assert after == CRLF + rest == [CR] + [LF] + rest;
    LineThroughFeed([CR], rest);
    assert after[..2] == CRLF;
    var header := field + CRLF + CRLF;
    AllAscii(header);
    SplitFirst(field, CRLF);
    FieldLineParses(n);
  }

  /** Decoding what was just encoded gives the payload back and leaves what follows. */
  lemma {:induction false} DecodeEncoded(payload: seq<byte>, rest: seq<byte>)
    ensures DecodeOne(Encode(payload) + rest) == Step(Some(payload), rest)
  {
    var header := FieldLine(|payload|) + CRLF + CRLF;
    var s := Encode(payload) + rest;
    assert s == FieldLine(|payload|) + CRLF + CRLF + (payload + rest);
    HeaderOfEncoded(|payload|, payload + rest);
    assert s[..|header|] == header;
    assert s[|header|..] == payload + rest;
    if |payload| > 0 {
      assert s[|header|..|header| + |payload|] == payload;
      assert s[|header| + |payload|..] == rest;
    } else {
      assert payload + rest == rest;
    }
  }

  // ---------------------------------------------------------------- other header fields

  lemma {:induction false} SplitField(line: seq<byte>, rest: seq<byte>)
    requires CR !in line
    ensures SplitCRLF(line + CRLF + rest) == [line] + SplitCRLF(rest)
  {
    var s := line + CRLF + rest;
    if line == [] {
      assert s[..2] == CRLF && s[2..] == rest;
    } else {
      assert s[0] == line[0] && s[1..] == line[1..] + CRLF + rest;
      SplitField(line[1..], rest);
      assert [s[0]] + line[1..] == line;
    }
  }

  lemma {:induction false} AsciiConcat(a: seq<byte>, b: seq<byte>)
    requires forall i :: 0 <= i < |a| ==> a[i] < 128
    ensures Ascii(a + b) == a + Ascii(b)
  {
    if a == [] {
      assert a + b == b;
    } else {
      assert (a + b)[1..] == a[1..] + b;
      AsciiConcat(a[1..], b);
    }
  }

  /** A header line that is no content-length field. */
  ghost predicate OtherField(line: seq<byte>) {
    line != [] && CR !in line && LF !in line && !IsLengthLine(line) && forall i :: 0 <= i < |line| ==> line[i] < 128
  }

  lemma {:induction false} FieldBefore(line: seq<byte>, s: seq<byte>)
    requires OtherField(line)
    ensures HeaderLength(line + CRLF + s) == |line| + 2 + HeaderLength(s)
    ensures ContentLength(line + CRLF + s[..HeaderLength(s)]) == ContentLength(s[..HeaderLength(s)])
  {
    var all, first, header := line + CRLF + s, line + [CR], s[..HeaderLength(s)];
    assert all == first + [LF] + s;
    LineThroughFeed(first, s);
    assert all[..|first| + 1] == line + CRLF && all[|first| + 1..] == s;
    assert (line + CRLF)[0] == line[0];
    assert !EndsHeader(line + CRLF);
    AsciiConcat(line + CRLF, header);
    SplitField(line, Ascii(header));
    assert ([line] + SplitCRLF(Ascii(header)))[1..] == SplitCRLF(Ascii(header));
  }

  /** A message with other fields in front, such as its content type, is the same message. */
  lemma {:induction false} OtherFieldSkipped(line: seq<byte>, s: seq<byte>)
    requires OtherField(line)
    ensures DecodeOne(line + CRLF + s) == DecodeOne(s)
  {
    FieldBefore(line, s);
    var field, n := line + CRLF, HeaderLength(s);
    CutBehind(field, s, n, n);
    var length := ContentLength(s[..n]);
    if length.Some? && 0 < length.value <= |s| - n {
      CutBehind(field, s, n, n + length.value);
    }
  }

  /** The field's name counts in upper and lower case alike. */
  lemma {:induction false} LengthFieldAnyCase(line: seq<byte>)
    ensures IsLengthLine(line) <==>
            |line| >= |LENGTH_FIELD| &&
            forall i :: 0 <= i < |LENGTH_FIELD| ==>
              line[i] == LENGTH_FIELD[i] || (LENGTH_FIELD[i] >= 97 && line[i] == LENGTH_FIELD[i] - 32)
  {
    if IsLengthLine(line) {
      forall i | 0 <= i < |LENGTH_FIELD|
        ensures line[i] == LENGTH_FIELD[i] || (LENGTH_FIELD[i] >= 97 && line[i] == LENGTH_FIELD[i] - 32) {
        assert Lower(line)[i] == LENGTH_FIELD[i];
      }
    } else if |line| >= |LENGTH_FIELD| {
      var i :| 0 <= i < |LENGTH_FIELD| && Lower(line)[i] != LENGTH_FIELD[i];
    }
  }

  /** A number is its digits, with an optional sign. */
  lemma {:induction false} SignedNumber(n: nat)
    ensures ParseInt(Decimal(n)) == ParseInt([43] + Decimal(n)) == Some(n)
    ensures ParseInt([45] + Decimal(n)).Some? && ParseInt([45] + Decimal(n)).value + n == 0
  {
    DecimalValue(n);
    assert IsDigit(Decimal(n)[0]);
    assert ([43] + Decimal(n))[1..] == Decimal(n) == ([45] + Decimal(n))[1..];
  }

  /** The first content-length field decides, malformed or not; without one there is no length. */
  lemma {:induction false} FirstFieldDecides(lines: seq<seq<byte>>, k: nat)
    requires k <= |lines| && forall i :: 0 <= i < k ==> !IsLengthLine(lines[i])
    requires k < |lines| ==> IsLengthLine(lines[k])
    ensures LengthIn(lines) ==
            if k == |lines| then None else ParseInt(StripText(lines[k][|LENGTH_FIELD|..]))
  {
    if k > 0 {
      FirstFieldDecides(lines[1..], k - 1);
    }
  }

  // ---------------------------------------------------------------- reading from a stream

  /** A byte stream; `splits` bounds how much each raw read delivers, in any way the pipe likes. */
  class ByteStream {
    var rest: seq<byte>
    var splits: seq<nat>

    constructor (content: seq<byte>, chunks: seq<nat>)
      ensures rest == content && splits == chunks
    {
      rest, splits := content, chunks;
    }

    method ReadLine() returns (line: seq<byte>)
      modifies `rest
      ensures line == old(rest)[..LineLength(old(rest))] && rest == old(rest)[|line|..]
    {
      var n := LineLength(rest);
      line, rest := rest[..n], rest[n..];
    }

    /** At least one byte unless the stream has ended, at most `limit`. */
    method Read(limit: nat) returns (chunk: seq<byte>)
      requires limit > 0
      modifies `rest, `splits
      ensures |chunk| <= limit && old(rest) == chunk + rest
      ensures chunk == [] <==> old(rest) == []
    {
      var n := if limit < |rest| then limit else |rest|;
      if splits != [] {
        if 0 < splits[0] < n {
          n := splits[0];
        }
        splits := splits[1..];
      }
      chunk, rest := rest[..n], rest[n..];
    }
  }

  lemma {:induction false} HeaderStep(s: seq<byte>, line: seq<byte>, rest: seq<byte>)
    requires line == s[..LineLength(s)] && rest == s[|line|..]
    ensures s == line + rest
    ensures if EndsHeader(line) then HeaderLength(s) == |line|
            else HeaderLength(s) == |line| + HeaderLength(rest)
  {
  }

  /** `header` has been read off the front of `all`, and `rest` is what is left. */
  ghost predicate InHeader(all: seq<byte>, header: seq<byte>, rest: seq<byte>) {
    all == header + rest && HeaderLength(all) == |header| + HeaderLength(rest)
  }

  lemma {:induction false} Pieces(all: seq<byte>, header: seq<byte>, rest: seq<byte>, line: seq<byte>, after: seq<byte>)
    requires all == header + rest && rest == line + after
    ensures all == header + line + after
    ensures header + line == all[..|header| + |line|] && after == all[|header| + |line|..]
  {
  }

  lemma {:induction false} HeaderNext(
    all: seq<byte>, header: seq<byte>, rest: seq<byte>, line: seq<byte>, after: seq<byte>)
    requires InHeader(all, header, rest) && line == rest[..LineLength(rest)] && after == rest[|line|..]
    ensures !EndsHeader(line) ==> InHeader(all, header + line, after) && |after| < |rest|
    ensures EndsHeader(line) ==> header + line == all[..HeaderLength(all)] && after == all[|header + line|..]
  {
    HeaderStep(rest, line, after);
    Pieces(all, header, rest, line, after);
  }

  method ReadHeader(stream: ByteStream) returns (header: seq<byte>)
    modifies stream
    ensures header == old(stream.rest)[..HeaderLength(old(stream.rest))]
    ensures stream.rest == old(stream.rest)[|header|..]
  {
    header := [];
    while true
      invariant InHeader(old(stream.rest), header, stream.rest)
      decreases |stream.rest|
    {
      ghost var before := stream.rest;
      var line := stream.ReadLine();
      HeaderNext(old(stream.rest), header, before, line, stream.rest);
      header := header + line;
      if EndsHeader(line) {
        return;
      }
    }
  }

  method ReadExact(stream: ByteStream, length: int) returns (data: Option<seq<byte>>)
    modifies stream
    ensures length <= 0 ==> data == Some([]) && stream.rest == old(stream.rest)
    ensures 0 < length <= |old(stream.rest)| ==>
              data == Some(old(stream.rest)[..length]) && stream.rest == old(stream.rest)[length..]
    ensures length > |old(stream.rest)| && length > 0 ==> data == None && stream.rest == []
  {
    var got: seq<byte> := [];
    while |got| < length
      invariant old(stream.rest) == got + stream.rest && (length > 0 ==> |got| <= length) && (length <= 0 ==> got == [])
      decreases length - |got|
    {
      var chunk := stream.Read(if length - |got| < 65536 then length - |got| else 65536);
      if chunk == [] {
        return None;
      }
      got := got + chunk;
    }
    return Some(got);
  }

  /** Whatever way the stream splits its bytes into reads, one call decodes exactly one message. */
  method ReadMessage(stream: ByteStream) returns (body: Option<seq<byte>>)
    modifies stream
    ensures Step(body, stream.rest) == DecodeOne(old(stream.rest))
  {
    ghost var s := stream.rest;
    var header := ReadHeader(stream);
    var length := ContentLength(header);
    if length.None? {
      return None;
    }
    ghost var n := HeaderLength(s);
    if 0 < length.value <= |s| - n {
      TailCut(s, n, length.value);
    }
    body := ReadExact(stream, length.value);
  }

  function EncodeAll(payloads: seq<seq<byte>>): seq<byte> {
    if payloads == [] then [] else Encode(payloads[0]) + EncodeAll(payloads[1..])
  }

  lemma {:induction false} EndDecodesToNothing()
    ensures DecodeOne([]) == Step(None, [])
  {
    assert HeaderLength([]) == 0;
    assert SplitCRLF([]) == [[]];
    assert LengthIn([[]]) == None;
  }

  /** What reading one message does to a stream from which `n` of the sent messages have been read. */
  lemma {:induction false} NextDecodes(sent: seq<seq<byte>>, n: nat)
    requires n <= |sent|
    ensures DecodeOne(EncodeAll(sent[n..])) ==
            if n == |sent| then Step(None, []) else Step(Some(sent[n]), EncodeAll(sent[n + 1..]))
  {
    var left := sent[n..];
    if n == |sent| {
      assert left == [];
      EndDecodesToNothing();
    } else {
      assert left[1..] == sent[n + 1..];
      DecodeEncoded(left[0], EncodeAll(left[1..]));
    }
  }

  /**
    The reader loop over everything a writer sent: for any messages and any way of splitting the stream
    into reads, exactly the sent payloads in order.
   */
  method ReadAll(stream: ByteStream, ghost sent: seq<seq<byte>>) returns (received: seq<seq<byte>>)
    requires stream.rest == EncodeAll(sent)
    modifies stream
    ensures received == sent && stream.rest == []
  {
    received := [];
    assert sent[0..] == sent;
    while true
      invariant received <= sent && stream.rest == EncodeAll(sent[|received|..])
      decreases |sent| - |received|
    {
      NextDecodes(sent, |received|);
      var body := ReadMessage(stream);
      if body.None? {
        return;
      }
      received := received + [body.value];
    }
  }
}
