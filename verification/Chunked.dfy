/** Chunked transfer coding (section 7.1 of RFC 9112): what the writer emits, what the reader makes
    of a byte stream, and the proof that the second inverts the first. */
module Chunked {
  import opened Options
  import opened Text
  import opened UrlCodec
  import opened Fields

  const MAX_LINE_LENGTH := 32768
  const ULONG_MAX := 0xFFFF_FFFF_FFFF_FFFF

  type Field = (string, string)

  // ---- Hexadecimal lengths ----

  function HexChar(d: nat): char
    requires d < 16
  {
    if d < 10 then ('0' as int + d) as char else ('a' as int + d - 10) as char
  }

  /** `from_i_to_hex`. */
  function ToHex(n: nat): (r: string)
    ensures r != ""
  {
    if n < 16 then [HexChar(n)] else ToHex(n / 16) + [HexChar(n % 16)]
  }

  predicate IsSpace(c: char) { c == ' ' || '\t' <= c <= '\r' }

  function SkipSpaces(s: string): string {
    if s != "" && IsSpace(s[0]) then SkipSpaces(s[1..]) else s
  }

  /** The longest run of hexadecimal digits at the head of `s`. */
  function HexPrefix(s: string): (r: string)
    ensures r <= s && forall i :: 0 <= i < |r| ==> HexDigit(r[i]).Some?
  {
    if s != "" && HexDigit(s[0]).Some? then [s[0]] + HexPrefix(s[1..]) else ""
  }

  function DigitsValue(digits: string): nat
    requires forall i :: 0 <= i < |digits| ==> HexDigit(digits[i]).Some?
  {
    if digits == "" then 0
    else 16 * DigitsValue(digits[..|digits| - 1]) + HexDigit(digits[|digits| - 1]).value
  }

  /** `strtoul(s, &end, 16)` on a 64-bit `unsigned long`; None when `end` is left at the start. */
  function StrToUL(s: string): (r: Option<nat>)
    ensures r.Some? ==> r.value <= ULONG_MAX
  {
    var t := SkipSpaces(s);
    var negative := t != "" && t[0] == '-';
    var u := if t != "" && (t[0] == '-' || t[0] == '+') then t[1..] else t;
    var prefixed := |u| > 2 && u[0] == '0' && (u[1] == 'x' || u[1] == 'X') && HexDigit(u[2]).Some?;
    var digits := HexPrefix(if prefixed then u[2..] else u);
    if digits == "" then None
    else
      var v := DigitsValue(digits);
      if v > ULONG_MAX then Some(ULONG_MAX)
      else if negative && v > 0 then Some(ULONG_MAX + 1 - v)
      else Some(v)
  }

  lemma {:induction false} ToHexDigits(n: nat)
    ensures forall i :: 0 <= i < |ToHex(n)| ==> HexDigit(ToHex(n)[i]).Some? && ToHex(n)[i] !in "xX+-"
    ensures forall i :: 0 <= i < |ToHex(n)| ==> !IsSpace(ToHex(n)[i])
    ensures DigitsValue(ToHex(n)) == n
  {
    if n >= 16 {
      ToHexDigits(n / 16);
      assert ToHex(n)[..|ToHex(n)| - 1] == ToHex(n / 16);
    }
  }

  lemma {:induction false} HexPrefixStops(digits: string, rest: string)
    requires forall i :: 0 <= i < |digits| ==> HexDigit(digits[i]).Some?
    requires rest == "" || HexDigit(rest[0]).None?
    ensures HexPrefix(digits + rest) == digits
  {
    if digits == "" {
      assert digits + rest == rest;
    } else {
      HexPrefixStops(digits[1..], rest);
      assert (digits + rest)[1..] == digits[1..] + rest;
    }
  }

  /** The digits have no sign, no prefix and no spaces in front of them. */
  predicate PlainDigits(s: string) {
    && s != "" && !IsSpace(s[0]) && s[0] != '-' && s[0] != '+'
    && (|s| > 1 ==> s[1] != 'x' && s[1] != 'X')
  }

  lemma PlainDigitsRead(s: string)
    requires PlainDigits(s)
    ensures StrToUL(s) ==
            var digits := HexPrefix(s);
            if digits == "" then None
            else Some(if DigitsValue(digits) > ULONG_MAX then ULONG_MAX else DigitsValue(digits))
  {
    assert SkipSpaces(s) == s;
  }

  /** A printed length is read back, up to the largest value, where reading saturates. */
  lemma HexRoundTrip(n: nat)
    ensures StrToUL(ToHex(n) + CRLF) == Some(if n <= ULONG_MAX then n else ULONG_MAX)
  {
    ToHexDigits(n);
    HexPrefixStops(ToHex(n), CRLF);
    HexText(ToHex(n));
    PlainDigitsRead(ToHex(n) + CRLF);
  }

  lemma HexText(digits: string)
    requires digits != "" && forall i :: 0 <= i < |digits| ==> !IsSpace(digits[i]) && digits[i] !in "xX+-"
    ensures PlainDigits(digits + CRLF)
  {
    var s := digits + CRLF;
    assert s[0] == digits[0] && s[1] == if |digits| > 1 then digits[1] else '\r';
  }

  // ---- Lines ----

  predicate EndsWithCrlf(s: string) { |s| >= 2 && s[|s| - 2..] == CRLF }

  /** `getline` on a stream that still holds `input`, with `line` already read. The stream ends
      with an error if `faulty`, with an end of file otherwise. Also what is left in the stream. */
  function ScanLine(input: string, line: string, faulty: bool): (r: (Option<string>, string))
    ensures |r.1| <= |input|
    ensures r.0.Some? && line == "" ==> |r.1| < |input|
    decreases |input|
  {
    if |line| >= MAX_LINE_LENGTH then (None, input)
    else if input == "" then (if faulty || line == "" then None else Some(line), "")
    else
      var longer := line + [input[0]];
      if EndsWithCrlf(longer) then (Some(longer), input[1..])
      else ScanLine(input[1..], longer, faulty)
  }

  lemma InnerCrlf(longer: string, rest: string)
    ensures EndsWithCrlf(longer) ==> FindFrom(longer + rest, CRLF, 0).Some?
  {
    var whole := longer + rest;
    if EndsWithCrlf(longer) {
      assert whole[|longer| - 2..|longer|] == longer[|longer| - 2..];
      assert OccursAt(whole, CRLF, |longer| - 2);
    }
  }

  lemma ScanStep(input: string, line: string, faulty: bool)
    requires |line| < MAX_LINE_LENGTH && input != ""
    ensures ScanLine(input, line, faulty) ==
            if EndsWithCrlf(line + [input[0]]) then (Some(line + [input[0]]), input[1..])
            else ScanLine(input[1..], line + [input[0]], faulty)
  {
  }

  lemma ReturnOnly(line: string)
    ensures !EndsWithCrlf(line + "\r") && EndsWithCrlf(line + CRLF)
  {
    var l := line + "\r";
    assert l[|l| - 1] == '\r';
    assert |l| >= 2 ==> l[|l| - 2..][1] == l[|l| - 1];
    assert (line + CRLF)[|line|..] == CRLF;
  }

  lemma ScanOn(c: char, more: string, line: string, longer: string, faulty: bool)
    requires |line| < MAX_LINE_LENGTH && longer == line + [c] && !EndsWithCrlf(longer)
    ensures ScanLine([c] + more, line, faulty) == ScanLine(more, longer, faulty)
  {
    assert ([c] + more)[1..] == more;
    ScanStep([c] + more, line, faulty);
  }

  lemma ScanStops(c: char, more: string, line: string, longer: string, faulty: bool)
    requires |line| < MAX_LINE_LENGTH && longer == line + [c] && EndsWithCrlf(longer)
    ensures ScanLine([c] + more, line, faulty) == (Some(longer), more)
  {
    assert ([c] + more)[1..] == more;
    ScanStep([c] + more, line, faulty);
  }

  /** The CRLF that ends a line. */
  lemma ScanEnd(line: string, rest: string, faulty: bool)
    requires |line| + 2 <= MAX_LINE_LENGTH
    ensures ScanLine(CRLF + rest, line, faulty) == (Some(line + CRLF), rest)
  {
    ReturnOnly(line);
    SplitCrlf(line, rest);
    ScanOn('\r', "\n" + rest, line, line + "\r", faulty);
    ScanStops('\n', rest, line + "\r", line + CRLF, faulty);
  }

  lemma SplitCrlf(line: string, rest: string)
    ensures CRLF + rest == ['\r'] + ("\n" + rest)
    ensures "\n" + rest == ['\n'] + rest
    ensures line + CRLF == (line + "\r") + ['\n']
    ensures line + "\r" == line + ['\r']
  {
  }

  lemma TakeHead(line: string, left: string, rest: string)
    requires left != ""
    ensures (line + [left[0]]) + left[1..] == line + left
    ensures (left + CRLF + rest)[0] == left[0] && (left + CRLF + rest)[1..] == left[1..] + CRLF + rest
  {
  }

  lemma {:induction false} ScanRest(line: string, left: string, rest: string, faulty: bool)
    requires FindFrom(line + left, CRLF, 0).None? && |line| + |left| + 2 <= MAX_LINE_LENGTH
    ensures ScanLine(left + CRLF + rest, line, faulty) == (Some(line + left + CRLF), rest)
    decreases |left|
  {
    if left == "" {
      assert left + CRLF + rest == CRLF + rest && line + left == line;
      ScanEnd(line, rest, faulty);
    } else {
      TakeHead(line, left, rest);
      InnerCrlf(line + [left[0]], left[1..]);
      ScanRest(line + [left[0]], left[1..], rest, faulty);
      ScanStep(left + CRLF + rest, line, faulty);
    }
  }

  /** A line without an inner CRLF is read as it is, CRLF included. */
  lemma ScanWholeLine(line: string, rest: string, faulty: bool)
    requires FindFrom(line, CRLF, 0).None? && |line| + 2 <= MAX_LINE_LENGTH
    ensures ScanLine(line + CRLF + rest, "", faulty) == (Some(line + CRLF), rest)
  {
    assert "" + line == line;
    ScanRest("", line, rest, faulty);
  }

  /** What `strcmp` sees of a line: it stops at the first NUL. */
  function CString(s: string): string {
    match FindChar(s, '\0')
    case None => s
    case Some(k) => s[..k]
  }

  // ---- Reader ----

  /** The outcome of `read_content_chunked`: its return value, what it delivered, the trailer fields
      it recorded, and what it left unread. */
  datatype Outcome = Outcome(ok: bool, payload: string, fields: seq<Field>, rest: string)

  /** The field that a trailer line adds, if any; the last two characters are taken for its CRLF. */
  function TrailerField(line: string): seq<Field> {
    if |line| < 2 then []
    else
      match ParseHeader(line[..|line| - 2])
      case None => []
      case Some(f) => [f]
  }

  type LineReader = string -> seq<Field>

  /** `read` is how a trailer line becomes a field: `TrailerField` in the real reader. */
  function ReadTrailer(read: LineReader, line: string, input: string, faulty: bool, payload: string,
                       fields: seq<Field>): Outcome
    decreases |input|
  {
    if CString(line) == CRLF then Outcome(true, payload, fields, input)
    else if |line| > HEADER_MAX_LENGTH then Outcome(false, payload, fields, input)
    else
      var more := fields + read(line);
      var (next, rest) := ScanLine(input, "", faulty);
      match next
      case None => Outcome(false, payload, more, rest)
      case Some(l) => ReadTrailer(read, l, rest, faulty, payload, more)
  }

  function AfterLastChunk(read: LineReader, input: string, faulty: bool, payload: string): Outcome {
    var (next, rest) := ScanLine(input, "", faulty);
    match next
    case None => Outcome(true, payload, [], rest)
    case Some(line) => ReadTrailer(read, line, rest, faulty, payload, [])
  }

  /** The chunk loop, at the moment when the size line `line` has been read. */
  function ReadChunks(read: LineReader, line: string, input: string, faulty: bool, payload: string): Outcome
    decreases |input|
  {
    match StrToUL(line)
    case None => Outcome(false, payload, [], input)
    case Some(len) =>
      if len == ULONG_MAX then Outcome(false, payload, [], input)
      else if len == 0 then AfterLastChunk(read, input, faulty, payload)
      else if |input| < len then Outcome(false, payload + input, [], "")
      else
        var more := payload + input[..len];
        var (end, rest) := ScanLine(input[len..], "", faulty);
        if end.None? || CString(end.value) != CRLF then Outcome(false, more, [], rest)
        else
          var (next, rest') := ScanLine(rest, "", faulty);
          match next
          case None => Outcome(false, more, [], rest')
          case Some(l) => ReadChunks(read, l, rest', faulty, more)
  }

  function ReadContent(read: LineReader, input: string, faulty: bool): Outcome {
    var (first, rest) := ScanLine(input, "", faulty);
    match first
    case None => Outcome(false, "", [], rest)
    case Some(line) => ReadChunks(read, line, rest, faulty, "")
  }

  // ---- Writer ----

  function ChunkText(data: string): string {
    if data == "" then "" else ToHex(|data|) + CRLF + data + CRLF
  }

  function ChunksText(data: seq<string>): string {
    if data == [] then "" else ChunkText(data[0]) + ChunksText(data[1..])
  }

  function TrailerText(fields: seq<Field>): string {
    if fields == [] then "" else FieldLine(fields[0].0, fields[0].1) + CRLF + TrailerText(fields[1..])
  }

  function FinishText(fields: seq<Field>): string { "0" + CRLF + TrailerText(fields) + CRLF }

  // ---- The reader inverts the writer ----

  /** A trailer field that survives: a token for a name, a legal value that decoding leaves alone. */
  predicate CarriedField(f: Field) {
    && IsToken(f.0) && IsFieldValue(f.1) && (KeptVerbatim(f.0) || !HasEscape(f.1))
    && |FieldLine(f.0, f.1) + CRLF| <= HEADER_MAX_LENGTH
  }

  /** The printed field is one line, and not an empty one, that is read back as that field. */
  predicate Survives(read: LineReader, f: Field) {
    var line := FieldLine(f.0, f.1);
    && FindFrom(line, CRLF, 0).None?
    && CString(line + CRLF) != CRLF
    && |line + CRLF| <= HEADER_MAX_LENGTH
    && read(line + CRLF) == [f]
  }

  lemma CarriedFieldSurvives(f: Field)
    requires CarriedField(f)
    ensures Survives(TrailerField, f)
  {
    PrintedFieldCharacters(f);
    var line := FieldLine(f.0, f.1);
    NoCrlf(line);
    NoNul(line + CRLF);
    LongerThanCrlf(line);
    FieldRoundTrip(f.0, f.1);
    TrailerFieldOf(line, f);
  }

  lemma LongerThanCrlf(line: string)
    requires line != ""
    ensures line + CRLF != CRLF
  {
    assert |line + CRLF| > |CRLF|;
  }

  lemma TrailerFieldOf(line: string, f: Field)
    requires ParseHeader(line) == Some(f)
    ensures TrailerField(line + CRLF) == [f]
  {
    assert (line + CRLF)[..|line + CRLF| - 2] == line;
  }

  lemma PrintedFieldCharacters(f: Field)
    requires IsToken(f.0) && IsFieldValue(f.1)
    ensures var line := FieldLine(f.0, f.1);
            line != "" && '\r' !in line && '\0' !in line
  {
    var line := FieldLine(f.0, f.1);
    assert forall i :: 0 <= i < |line| ==> line[i] != '\r' && line[i] != '\0';
  }

  lemma NoNul(s: string)
    requires '\0' !in s
    ensures CString(s) == s
  {
  }

  /** One trailer line is recorded and the next one is read. */
  lemma TrailerStep(read: LineReader, f: Field, input: string, faulty: bool, payload: string, before: seq<Field>)
    requires Survives(read, f)
    ensures ReadTrailer(read, FieldLine(f.0, f.1) + CRLF, input, faulty, payload, before) ==
            var (next, rest) := ScanLine(input, "", faulty);
            if next.None? then Outcome(false, payload, before + [f], rest)
            else ReadTrailer(read, next.value, rest, faulty, payload, before + [f])
  {
  }

  lemma TrailerEnd(read: LineReader, rest: string, faulty: bool, payload: string, before: seq<Field>)
    ensures ScanLine(CRLF + rest, "", faulty) == (Some(CRLF), rest)
    ensures ReadTrailer(read, CRLF, rest, faulty, payload, before) == Outcome(true, payload, before, rest)
  {
    EmptyLine(rest, faulty);
  }

  lemma TrailerTextStep(fields: seq<Field>, rest: string)
    requires fields != []
    ensures TrailerText(fields) + CRLF + rest
         == FieldLine(fields[0].0, fields[0].1) + CRLF + (TrailerText(fields[1..]) + CRLF + rest)
  {
  }

  /** The trailer section `text` is read as `fields`, up to `rest`. */
  predicate TrailerReads(read: LineReader, text: string, rest: string, faulty: bool, payload: string,
                         before: seq<Field>, after: seq<Field>)
  {
    var (line, left) := ScanLine(text, "", faulty);
    line.Some? && ReadTrailer(read, line.value, left, faulty, payload, before) == Outcome(true, payload, after, rest)
  }

  lemma TrailerReadsStep(read: LineReader, f: Field, more: string, rest: string, faulty: bool, payload: string,
                         before: seq<Field>, after: seq<Field>)
    requires Survives(read, f) && TrailerReads(read, more, rest, faulty, payload, before + [f], after)
    ensures TrailerReads(read, FieldLine(f.0, f.1) + CRLF + more, rest, faulty, payload, before, after)
  {
    ScanWholeLine(FieldLine(f.0, f.1), more, faulty);
    TrailerStep(read, f, more, faulty, payload, before);
  }

  lemma TrailerReadsNone(read: LineReader, rest: string, faulty: bool, payload: string, before: seq<Field>)
    ensures TrailerReads(read, TrailerText([]) + CRLF + rest, rest, faulty, payload, before, before + [])
  {
    TrailerEnd(read, rest, faulty, payload, before);
    assert TrailerText([]) + CRLF + rest == CRLF + rest;
    assert before + [] == before;
  }

  lemma {:induction false} TrailerInverse(read: LineReader, fields: seq<Field>, rest: string, faulty: bool,
                                          payload: string, before: seq<Field>)
    requires forall f :: f in fields ==> Survives(read, f)
    ensures TrailerReads(read, TrailerText(fields) + CRLF + rest, rest, faulty, payload, before, before + fields)
    decreases |fields|
  {
    if fields == [] {
      TrailerReadsNone(read, rest, faulty, payload, before);
    } else {
      var f, others := fields[0], fields[1..];
      var more := TrailerText(others) + CRLF + rest;
      TrailerInverse(read, others, rest, faulty, payload, before + [f]);
      Prepend(before, fields);
      TrailerReadsStep(read, f, more, rest, faulty, payload, before, before + fields);
      TrailerTextStep(fields, rest);
    }
  }

  lemma Prepend(before: seq<Field>, fields: seq<Field>)
    requires fields != []
    ensures before + [fields[0]] + fields[1..] == before + fields
  {
  }

  /** The chunk loop over one printed chunk. */
  lemma ChunkStep(read: LineReader, data: string, more: string, faulty: bool, payload: string)
    requires 0 < |data| < ULONG_MAX
    ensures ReadChunks(read, ToHex(|data|) + CRLF, data + CRLF + more, faulty, payload) ==
            var (next, rest) := ScanLine(more, "", faulty);
            if next.None? then Outcome(false, payload + data, [], rest)
            else ReadChunks(read, next.value, rest, faulty, payload + data)
  {
    HexRoundTrip(|data|);
    DataThenLine(data, more);
    EmptyLine(more, faulty);
  }

  lemma DataThenLine(data: string, more: string)
    ensures var input := data + CRLF + more;
            |input| >= |data| && input[..|data|] == data && input[|data|..] == CRLF + more
  {
  }

  lemma EmptyLine(more: string, faulty: bool)
    ensures ScanLine(CRLF + more, "", faulty) == (Some(CRLF), more)
    ensures CString(CRLF) == CRLF
  {
    assert CRLF + more == "" + CRLF + more;
    ScanWholeLine("", more, faulty);
    assert "" + CRLF == CRLF;
  }

  lemma SizeLineIsOneLine(n: nat)
    requires n <= ULONG_MAX
    ensures FindFrom(ToHex(n), CRLF, 0).None? && |ToHex(n)| <= 16
  {
    ToHexDigits(n);
    assert HexRange(4) == 0x10000;
    assert HexRange(8) == 0x1_0000_0000;
    assert HexRange(12) == 0x1_0000_0000_0000;
    assert HexRange(16) == ULONG_MAX + 1;
    HexLength(n, 16);
    NoCrlf(ToHex(n));
  }

  lemma {:induction false} HexLength(n: nat, digits: nat)
    requires digits > 0 && n < HexRange(digits)
    ensures |ToHex(n)| <= digits
  {
    if n >= 16 {
      HexLength(n / 16, digits - 1);
    }
  }

  /** What is left to read starts with a chunk, unless only the end is left. */
  lemma ChunksTextStep(data: seq<string>, tail: string)
    requires data != [] && data[0] != ""
    ensures ChunksText(data) + tail
         == ToHex(|data[0]|) + CRLF + (data[0] + CRLF + (ChunksText(data[1..]) + tail))
  {
  }

  lemma LastChunk(read: LineReader, input: string, faulty: bool, payload: string)
    ensures ReadChunks(read, "0" + CRLF, input, faulty, payload) == AfterLastChunk(read, input, faulty, payload)
  {
    assert ToHex(0) == "0";
    HexRoundTrip(0);
  }

  lemma FinishInverse(read: LineReader, fields: seq<Field>, rest: string, faulty: bool, payload: string)
    requires forall f :: f in fields ==> Survives(read, f)
    ensures FromSizeLine(read, FinishText(fields) + rest, faulty, payload) == Outcome(true, payload, fields, rest)
  {
    var tail := TrailerText(fields) + CRLF + rest;
    assert FinishText(fields) + rest == "0" + CRLF + tail;
    LastChunkLine(read, tail, faulty, payload);
    TrailerInverse(read, fields, rest, faulty, payload, []);
    assert [] + fields == fields;
  }

  /** Where the chunk loop is when the size line in front of `text` has been read. */
  function FromSizeLine(read: LineReader, text: string, faulty: bool, payload: string): Outcome {
    var (line, left) := ScanLine(text, "", faulty);
    if line.None? then Outcome(false, payload, [], left) else ReadChunks(read, line.value, left, faulty, payload)
  }

  lemma OneChunkRead(read: LineReader, d: string, more: string, faulty: bool, payload: string)
    requires 0 < |d| < ULONG_MAX
    ensures FromSizeLine(read, ToHex(|d|) + CRLF + (d + CRLF + more), faulty, payload)
         == FromSizeLine(read, more, faulty, payload + d)
  {
    SizeLineIsOneLine(|d|);
    ScanWholeLine(ToHex(|d|), d + CRLF + more, faulty);
    ChunkStep(read, d, more, faulty, payload);
  }

  /** The loop over printed chunks delivers their data and goes on behind them, whatever is there. */
  lemma {:induction false} ChunksRead(read: LineReader, data: seq<string>, tail: string, faulty: bool, payload: string)
    requires forall d :: d in data ==> |d| < ULONG_MAX
    ensures FromSizeLine(read, ChunksText(data) + tail, faulty, payload)
         == FromSizeLine(read, tail, faulty, payload + Concat(data))
    decreases |data|
  {
    if data == [] {
      assert ChunksText(data) + tail == tail;
      assert payload + Concat(data) == payload;
    } else if data[0] == "" {
      ChunksRead(read, data[1..], tail, faulty, payload);
      assert ChunksText(data) == ChunksText(data[1..]);
      assert Concat(data) == Concat(data[1..]);
    } else {
      ChunksTextStep(data, tail);
      OneChunkRead(read, data[0], ChunksText(data[1..]) + tail, faulty, payload);
      ChunksRead(read, data[1..], tail, faulty, payload + data[0]);
      Assoc(payload, data[0], Concat(data[1..]));
    }
  }

  lemma ReadContentFrom(read: LineReader, input: string, faulty: bool)
    ensures ReadContent(read, input, faulty) == FromSizeLine(read, input, faulty, "")
  {
  }

  /** The trailer section has no influence on what is delivered. */
  lemma {:induction false} TrailerKeepsPayload(read: LineReader, line: string, input: string, faulty: bool,
                                               payload: string, fields: seq<Field>)
    ensures ReadTrailer(read, line, input, faulty, payload, fields).payload == payload
    decreases |input|
  {
    var (next, rest) := ScanLine(input, "", faulty);
    if next.Some? {
      TrailerKeepsPayload(read, next.value, rest, faulty, payload, fields + read(line));
    }
  }

  /** Behind the data of printed chunks and the last chunk, nothing more is delivered. */
  lemma EndKeepsPayload(read: LineReader, data: seq<string>, more: string, faulty: bool)
    requires forall d :: d in data ==> |d| < ULONG_MAX
    ensures ReadContent(read, ChunksText(data) + ("0" + CRLF + more), faulty).payload == Concat(data)
  {
    var tail := "0" + CRLF + more;
    ReadContentFrom(read, ChunksText(data) + tail, faulty);
    ChunksRead(read, data, tail, faulty, "");
    assert "" + Concat(data) == Concat(data);
    LastChunkLine(read, more, faulty, Concat(data));
    var (next, rest) := ScanLine(more, "", faulty);
    if next.Some? {
      TrailerKeepsPayload(read, next.value, rest, faulty, Concat(data), []);
    }
  }

  lemma LastChunkLine(read: LineReader, more: string, faulty: bool, payload: string)
    ensures FromSizeLine(read, "0" + CRLF + more, faulty, payload) == AfterLastChunk(read, more, faulty, payload)
  {
    assert ToHex(0) == "0";
    SizeLineIsOneLine(0);
    ScanWholeLine("0", more, faulty);
    LastChunk(read, more, faulty, payload);
  }

  /** Round trip: reading what was written delivers the concatenated data and the trailer fields,
      and leaves exactly the bytes that follow the message. */
  lemma ReadInvertsWrite(read: LineReader, data: seq<string>, fields: seq<Field>, rest: string, faulty: bool)
    requires forall d :: d in data ==> |d| < ULONG_MAX
    requires forall f :: f in fields ==> Survives(read, f)
    ensures ReadContent(read, ChunksText(data) + FinishText(fields) + rest, faulty)
         == Outcome(true, Concat(data), fields, rest)
  {
    var tail := FinishText(fields) + rest;
    Assoc(ChunksText(data), FinishText(fields), rest);
    ReadContentFrom(read, ChunksText(data) + tail, faulty);
    ChunksRead(read, data, tail, faulty, "");
    assert "" + Concat(data) == Concat(data);
    FinishInverse(read, fields, rest, faulty, Concat(data));
  }

  /** Round trip for the real reader: every trailer made of tokens and plain values comes back. */
  lemma ChunkedRoundTrip(data: seq<string>, fields: seq<Field>, rest: string, faulty: bool)
    requires forall d :: d in data ==> |d| < ULONG_MAX
    requires forall f :: f in fields ==> CarriedField(f)
    ensures ReadContent(TrailerField, ChunksText(data) + FinishText(fields) + rest, faulty)
         == Outcome(true, Concat(data), fields, rest)
  {
    forall f | f in fields
      ensures Survives(TrailerField, f)
    {
      CarriedFieldSurvives(f);
    }
    ReadInvertsWrite(TrailerField, data, fields, rest, faulty);
  }

  // ---- A message without its end ----

  /** Chunks without an end of message: the reader delivers them all and then fails. */
  lemma UnfinishedMessage(read: LineReader, data: seq<string>, faulty: bool)
    requires forall d :: d in data ==> |d| < ULONG_MAX
    ensures var r := ReadContent(read, ChunksText(data), faulty);
            !r.ok && r.payload == Concat(data)
  {
    assert ChunksText(data) + "" == ChunksText(data);
    ReadContentFrom(read, ChunksText(data), faulty);
    ChunksRead(read, data, "", faulty, "");
    assert "" + Concat(data) == Concat(data);
  }
}
