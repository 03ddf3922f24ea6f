/** Chunked messages as other senders write them, and the ones that the reader refuses. */
module ChunkedForms {
  import opened Options
  import opened Text
  import opened UrlCodec
  import opened Fields
  import opened Chunked

  // ---- Size lines ----

  predicate HexDigits(s: string) { forall i :: 0 <= i < |s| ==> HexDigit(s[i]).Some? }

  /** A size line for `n` bytes (section 7.1 of RFC 9112): digits in any case, with zeros in front, and
      extensions behind them. */
  predicate SizeText(t: string, digits: string, n: nat) {
    && digits != "" && HexDigits(digits) && DigitsValue(digits) == n <= ULONG_MAX
    && digits <= t && (|t| > |digits| ==> HexDigit(t[|digits|]).None? && (|digits| == 1 ==> t[1] !in "xX"))
    && FindFrom(t, CRLF, 0).None? && |t| + 2 <= MAX_LINE_LENGTH
  }

  lemma DigitIsPlain(c: char)
    requires HexDigit(c).Some?
    ensures !IsSpace(c) && c !in "xX+-"
  {
  }

  lemma SizeRead(t: string, digits: string, n: nat)
    requires SizeText(t, digits, n)
    ensures StrToUL(t + CRLF) == Some(n)
  {
    var rest := t[|digits|..] + CRLF;
    assert t == digits + t[|digits|..];
    assert t + CRLF == digits + rest;
    HexPrefixStops(digits, rest);
    assert rest[0] == if |t| > |digits| then t[|digits|] else '\r';
    PlainSize(digits, rest);
    PlainDigitsRead(digits + rest);
  }

  lemma PlainSize(digits: string, rest: string)
    requires digits != "" && HexDigits(digits) && rest != ""
    requires |digits| == 1 ==> rest[0] !in "xX"
    ensures PlainDigits(digits + rest)
  {
    DigitIsPlain(digits[0]);
    if |digits| > 1 {
      DigitIsPlain(digits[1]);
    }
  }

  // ---- Chunks of any sender ----

  /** A chunk with its size line. */
  datatype Chunk = Chunk(size: string, digits: string, data: string)

  predicate GoodChunk(k: Chunk) {
    SizeText(k.size, k.digits, |k.data|) && 0 < |k.data| < ULONG_MAX
  }

  function SentText(chunks: seq<Chunk>): string {
    if chunks == [] then ""
    else chunks[0].size + CRLF + (chunks[0].data + CRLF + SentText(chunks[1..]))
  }

  function Data(chunks: seq<Chunk>): string {
    if chunks == [] then "" else chunks[0].data + Data(chunks[1..])
  }

  /** From the size line on, over one chunk. */
  lemma ChunkRead(read: LineReader, k: Chunk, more: string, faulty: bool, payload: string)
    requires GoodChunk(k)
    ensures FromSizeLine(read, k.size + CRLF + (k.data + CRLF + more), faulty, payload)
         == FromSizeLine(read, more, faulty, payload + k.data)
  {
    ScanWholeLine(k.size, k.data + CRLF + more, faulty);
    SizeRead(k.size, k.digits, |k.data|);
    DataThenLine(k.data, more);
    EmptyLine(more, faulty);
    ChunkLoop(read, k.size + CRLF, k.data + CRLF + more, |k.data|, k.data, more, faulty, payload);
  }

  lemma ChunkLoop(read: LineReader, line: string, input: string, n: nat, data: string, more: string, faulty: bool,
                  payload: string)
    requires StrToUL(line) == Some(n) && 0 < n < ULONG_MAX && |input| >= n && input[..n] == data
    requires ScanLine(input[n..], "", faulty) == (Some(CRLF), more)
    ensures ReadChunks(read, line, input, faulty, payload) == FromSizeLine(read, more, faulty, payload + data)
  {
    assert CString(CRLF) == CRLF;
  }

  lemma SentStep(chunks: seq<Chunk>, tail: string)
    requires chunks != []
    ensures SentText(chunks) + tail
         == chunks[0].size + CRLF + (chunks[0].data + CRLF + (SentText(chunks[1..]) + tail))
  {
  }

  /** The reader delivers the data of all chunks and goes on behind them. */
  lemma {:induction false} SentRead(read: LineReader, chunks: seq<Chunk>, tail: string, faulty: bool, payload: string)
    requires forall k :: k in chunks ==> GoodChunk(k)
    ensures FromSizeLine(read, SentText(chunks) + tail, faulty, payload)
         == FromSizeLine(read, tail, faulty, payload + Data(chunks))
    decreases |chunks|
  {
    if chunks == [] {
      assert SentText(chunks) + tail == tail && payload + "" == payload;
    } else {
      SentStep(chunks, tail);
      ChunkRead(read, chunks[0], SentText(chunks[1..]) + tail, faulty, payload);
      SentRead(read, chunks[1..], tail, faulty, payload + chunks[0].data);
      Assoc(payload, chunks[0].data, Data(chunks[1..]));
    }
  }

  /** Reading starts at the first size line. */
  lemma WholeRead(read: LineReader, chunks: seq<Chunk>, tail: string, faulty: bool)
    requires forall k :: k in chunks ==> GoodChunk(k)
    ensures ReadContent(read, SentText(chunks) + tail, faulty) == FromSizeLine(read, tail, faulty, Data(chunks))
  {
    ReadContentFrom(read, SentText(chunks) + tail, faulty);
    SentRead(read, chunks, tail, faulty, "");
    assert "" + Data(chunks) == Data(chunks);
  }

  // ---- Ends ----

  lemma EndLine(read: LineReader, size: string, digits: string, more: string, faulty: bool, payload: string)
    requires SizeText(size, digits, 0)
    ensures FromSizeLine(read, size + CRLF + more, faulty, payload) == AfterLastChunk(read, more, faulty, payload)
  {
    ScanWholeLine(size, more, faulty);
    SizeRead(size, digits, 0);
  }

  /** With chunks and a last chunk of any sender the message is read whole, with its trailer. */
  lemma AnySenderRead(chunks: seq<Chunk>, size: string, digits: string, fields: seq<Field>, rest: string, faulty: bool)
    requires (forall k :: k in chunks ==> GoodChunk(k)) && SizeText(size, digits, 0)
    requires forall f :: f in fields ==> CarriedField(f)
    ensures ReadContent(TrailerField, SentText(chunks) + (size + CRLF + (TrailerText(fields) + CRLF + rest)), faulty)
         == Outcome(true, Data(chunks), fields, rest)
  {
    var more := TrailerText(fields) + CRLF + rest;
    WholeRead(TrailerField, chunks, size + CRLF + more, faulty);
    EndLine(TrailerField, size, digits, more, faulty, Data(chunks));
    forall f | f in fields
      ensures Survives(TrailerField, f)
    {
      CarriedFieldSurvives(f);
    }
    TrailerInverse(TrailerField, fields, rest, faulty, Data(chunks), []);
    assert [] + fields == fields;
  }

  /** The empty line at the end may be missing, whether the stream ends or breaks there. */
  lemma NoFinalLine(read: LineReader, chunks: seq<Chunk>, size: string, digits: string, faulty: bool)
    requires (forall k :: k in chunks ==> GoodChunk(k)) && SizeText(size, digits, 0)
    ensures ReadContent(read, SentText(chunks) + (size + CRLF), faulty) == Outcome(true, Data(chunks), [], "")
  {
    assert size + CRLF == size + CRLF + "";
    WholeRead(read, chunks, size + CRLF, faulty);
    EndLine(read, size, digits, "", faulty, Data(chunks));
  }

  // ---- Refusals ----

  /** A line that does not begin with a size. */
  predicate NoSize(line: string) {
    line != "" && !IsSpace(line[0]) && line[0] !in "+-" && HexDigit(line[0]).None?
    && FindFrom(line, CRLF, 0).None? && |line| + 2 <= MAX_LINE_LENGTH
  }

  /** Where a size is expected and there is none, what has come is delivered, and reading fails. */
  lemma NoSizeRefused(read: LineReader, chunks: seq<Chunk>, line: string, more: string, faulty: bool)
    requires (forall k :: k in chunks ==> GoodChunk(k)) && NoSize(line)
    ensures var r := ReadContent(read, SentText(chunks) + (line + CRLF + more), faulty);
            !r.ok && r.payload == Data(chunks)
  {
    WholeRead(read, chunks, line + CRLF + more, faulty);
    ScanWholeLine(line, more, faulty);
    Sizeless(line);
  }

  lemma Sizeless(line: string)
    requires NoSize(line)
    ensures StrToUL(line + CRLF).None?
  {
    SizelessText(line + CRLF, line[0]);
  }

  lemma SizelessText(s: string, c: char)
    requires s != "" && s[0] == c && !IsSpace(c) && c !in "+-" && HexDigit(c).None?
    ensures StrToUL(s).None?
  {
    assert SkipSpaces(s) == s;
    assert HexPrefix(s) == "";
  }

  /** The largest length is refused. */
  lemma LargestRefused(read: LineReader, chunks: seq<Chunk>, size: string, digits: string, more: string, faulty: bool)
    requires (forall k :: k in chunks ==> GoodChunk(k)) && SizeText(size, digits, ULONG_MAX)
    ensures var r := ReadContent(read, SentText(chunks) + (size + CRLF + more), faulty);
            !r.ok && r.payload == Data(chunks)
  {
    WholeRead(read, chunks, size + CRLF + more, faulty);
    ScanWholeLine(size, more, faulty);
    SizeRead(size, digits, ULONG_MAX);
  }

  /** A chunk that is cut off: its beginning is delivered, and reading fails. */
  lemma CutChunkRefused(read: LineReader, chunks: seq<Chunk>, size: string, digits: string, n: nat, data: string,
                        faulty: bool)
    requires (forall k :: k in chunks ==> GoodChunk(k)) && SizeText(size, digits, n) && |data| < n < ULONG_MAX
    ensures ReadContent(read, SentText(chunks) + (size + CRLF + data), faulty)
         == Outcome(false, Data(chunks) + data, [], "")
  {
    WholeRead(read, chunks, size + CRLF + data, faulty);
    ScanWholeLine(size, data, faulty);
    SizeRead(size, digits, n);
  }

  /** The data has to end where its size says: with anything but an empty line there, reading fails. */
  lemma WrongSizeRefused(read: LineReader, chunks: seq<Chunk>, k: Chunk, line: string, more: string, faulty: bool)
    requires (forall k :: k in chunks ==> GoodChunk(k)) && GoodChunk(k)
    requires line != "" && '\0' !in line && FindFrom(line, CRLF, 0).None? && |line| + 2 <= MAX_LINE_LENGTH
    ensures var r := ReadContent(read, SentText(chunks) + (k.size + CRLF + (k.data + line + CRLF + more)), faulty);
            !r.ok && r.payload == Data(chunks) + k.data
  {
    var input := k.data + line + CRLF + more;
    WholeRead(read, chunks, k.size + CRLF + input, faulty);
    ScanWholeLine(k.size, input, faulty);
    SizeRead(k.size, k.digits, |k.data|);
    LineBehindData(k.data, line, more);
    ScanWholeLine(line, more, faulty);
    NoNul(line + CRLF);
    LongerThanCrlf(line);
    WrongEnd(read, k.size + CRLF, input, |k.data|, k.data, line + CRLF, more, faulty, Data(chunks));
  }

  lemma LineBehindData(data: string, line: string, more: string)
    ensures var input := data + line + CRLF + more;
            |input| >= |data| && input[..|data|] == data && input[|data|..] == line + CRLF + more
  {
  }

  lemma WrongEnd(read: LineReader, line: string, input: string, n: nat, data: string, bad: string, more: string,
                 faulty: bool, payload: string)
    requires StrToUL(line) == Some(n) && 0 < n < ULONG_MAX && |input| >= n && input[..n] == data
    requires ScanLine(input[n..], "", faulty) == (Some(bad), more) && CString(bad) != CRLF
    ensures ReadChunks(read, line, input, faulty, payload) == Outcome(false, payload + data, [], more)
  {
  }

  // ---- Trailer lines ----

  predicate TrailerLine(line: string) {
    line != "" && '\0' !in line && FindFrom(line, CRLF, 0).None? && |line| + 2 <= MAX_LINE_LENGTH
  }

  /** A trailer line that is not a legal field is passed over. */
  lemma IllegalLineSkipped(line: string, input: string, faulty: bool, payload: string, fields: seq<Field>)
    requires TrailerLine(line) && |line| + 2 <= HEADER_MAX_LENGTH && ParseHeader(line).None?
    requires ScanLine(input, "", faulty).0.Some?
    ensures ReadTrailer(TrailerField, line + CRLF, input, faulty, payload, fields)
         == ReadTrailer(TrailerField, ScanLine(input, "", faulty).0.value, ScanLine(input, "", faulty).1, faulty,
                        payload, fields)
  {
    NoNul(line + CRLF);
    LongerThanCrlf(line);
    assert (line + CRLF)[..|line + CRLF| - 2] == line;
    assert fields + [] == fields;
  }

  /** One that is too long ends the reading, */
  lemma LongLineRefused(read: LineReader, line: string, input: string, faulty: bool, payload: string,
                        fields: seq<Field>)
    requires TrailerLine(line) && |line| + 2 > HEADER_MAX_LENGTH
    ensures ReadTrailer(read, line + CRLF, input, faulty, payload, fields) == Outcome(false, payload, fields, input)
  {
    NoNul(line + CRLF);
    LongerThanCrlf(line);
  }

  /** and so does a trailer that breaks off behind one of its lines. */
  lemma CutTrailerRefused(read: LineReader, line: string, faulty: bool, payload: string, fields: seq<Field>)
    requires TrailerLine(line)
    ensures !ReadTrailer(read, line + CRLF, "", faulty, payload, fields).ok
  {
    NoNul(line + CRLF);
    LongerThanCrlf(line);
  }

  // ---- Lines ----

  lemma {:induction false} OpenLine(line: string, input: string, faulty: bool)
    requires FindFrom(line + input, CRLF, 0).None? && |line + input| < MAX_LINE_LENGTH
    ensures ScanLine(input, line, faulty) == (if faulty || line + input == "" then None else Some(line + input), "")
    decreases |input|
  {
    if input == "" {
      assert line + input == line;
    } else {
      var longer := line + [input[0]];
      assert longer + input[1..] == line + input;
      InnerCrlf(longer, input[1..]);
      OpenLine(longer, input[1..], faulty);
    }
  }

  /** A line that the stream ends in is read as it is, if it is not empty; one that it breaks in is lost. */
  lemma LastLine(line: string, faulty: bool)
    requires FindFrom(line, CRLF, 0).None? && |line| < MAX_LINE_LENGTH
    ensures ScanLine(line, "", faulty) == (if faulty || line == "" then None else Some(line), "")
  {
    assert "" + line == line;
    OpenLine("", line, faulty);
  }

  lemma {:induction false} LongLine(line: string, left: string, rest: string, faulty: bool)
    requires FindFrom(line + left, CRLF, 0).None? && |line + left| == MAX_LINE_LENGTH
    ensures ScanLine(left + rest, line, faulty) == (None, rest)
    decreases |left|
  {
    if left == "" {
      assert left + rest == rest;
    } else {
      var longer := line + [left[0]];
      assert longer + left[1..] == line + left;
      assert (left + rest)[1..] == left[1..] + rest;
      InnerCrlf(longer, left[1..]);
      LongLine(longer, left[1..], rest, faulty);
    }
  }

  /** A line that does not end within the limit is given up there. */
  lemma LongLineGivenUp(line: string, rest: string, faulty: bool)
    requires FindFrom(line, CRLF, 0).None? && |line| == MAX_LINE_LENGTH
    ensures ScanLine(line + rest, "", faulty) == (None, rest)
  {
    assert "" + line == line;
    LongLine("", line, rest, faulty);
  }
}
