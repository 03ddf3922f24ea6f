/** The chunked reader and writer over streams that may read and write less than asked for. */
module ChunkedIO {
  import opened Options
  import opened Text
  import opened Fields
  import opened Chunked

  const RECV_BUFSIZ := 16384

  /** The reading side of a `Stream`. After the last byte it reports an end of file, or an error. */
  class InStream {
    var input: string
    const faulty: bool

    constructor (input: string, faulty: bool)
      ensures this.input == input && this.faulty == faulty
    {
      this.input := input;
      this.faulty := faulty;
    }

    /** Returns a negative count on an error, 0 at the end, else how many bytes of `data` were read. */
    method Read(max: nat) returns (n: int, data: string)
      requires max > 0
      modifies this
      ensures old(input) == "" ==> input == "" && data == "" && n == if faulty then -1 else 0
      ensures old(input) != "" ==> 1 <= n == |data| <= max && old(input) == data + input
    {
      if input == "" {
        return if faulty then -1 else 0, "";
      }
      n :| 1 <= n <= max && n <= |input|;
      data := input[..n];
      input := input[n..];
    }
  }

  /** `stream_line_reader`: a fixed buffer that spills over to a growable one. */
  class StreamLineReader {
    const stream: InStream
    const fixedBuffer: array<char>
    var fixedUsed: nat
    var growable: string

    ghost predicate Valid()
      reads this, fixedBuffer
    {
      && fixedBuffer.Length >= 2
      && fixedUsed < fixedBuffer.Length
      && (growable != "" ==> fixedUsed == fixedBuffer.Length - 1)
      && (fixedUsed > 0 ==> fixedBuffer[fixedUsed] == '\0')
    }

    /** What `ptr()` and `size()` show. */
    function Contents(): string
      requires Valid()
      reads this, fixedBuffer
    {
      if growable == "" then fixedBuffer[..fixedUsed] else growable
    }

    constructor (stream: InStream, fixedSize: nat)
      requires fixedSize >= 2
      ensures Valid() && fresh(fixedBuffer) && this.stream == stream && fixedBuffer.Length == fixedSize
    {
      this.stream := stream;
      fixedBuffer := new char[fixedSize](_ => '\0');
      fixedUsed, growable := 0, "";
    }

    method Append(c: char)
      requires Valid()
      modifies this, fixedBuffer
      ensures Valid() && Contents() == old(Contents()) + [c]
    {
      if fixedUsed < fixedBuffer.Length - 1 {
        fixedBuffer[fixedUsed] := c;
        fixedUsed := fixedUsed + 1;
        fixedBuffer[fixedUsed] := '\0';
      } else {
        if growable == "" {
          assert fixedBuffer[fixedUsed] == '\0';
          growable := fixedBuffer[..fixedUsed];
        }
        growable := growable + [c];
      }
    }

    /** Reads one more character of the line, or finds that there is none. */
    method ReadByte(ghost start: string) returns (n: int, c: char)
      requires Valid() && |Contents()| < MAX_LINE_LENGTH
      requires SameScan(stream.input, Contents(), start, stream.faulty)
      modifies this, fixedBuffer, stream
      ensures Valid()
      ensures n < 0 ==> ScanLine(start, "", stream.faulty) == (None, stream.input)
      ensures n == 0 ==> Contents() == old(Contents())
      ensures n == 0 ==>
                ScanLine(start, "", stream.faulty) ==
                (if Contents() == "" then None else Some(Contents()), stream.input)
      ensures n > 0 ==> Contents() == old(Contents()) + [c] && |stream.input| < |old(stream.input)|
      ensures n > 0 && EndsLine(old(Contents()), c) ==>
                ScanLine(start, "", stream.faulty) == (Some(Contents()), stream.input)
      ensures n > 0 && !EndsLine(old(Contents()), c) ==> SameScan(stream.input, Contents(), start, stream.faulty)
    {
      ghost var before, line := stream.input, Contents();
      SameScanStops(before, line, start, stream.faulty);
      var data;
      n, data := stream.Read(1);
      c := '\0';
      if n > 0 {
        c := data[0];
        assert before == [c] + stream.input;
        SameScanStep(before, line, start, stream.faulty);
        LastTwo(line, c);
        Append(c);
      }
    }

    /** Reads one line. Its outcome does not depend on the size of the fixed buffer. */
    method GetLine() returns (ok: bool)
      requires Valid()
      modifies this, fixedBuffer, stream
      ensures Valid()
      ensures var (line, rest) := ScanLine(old(stream.input), "", stream.faulty);
              ok == line.Some? && stream.input == rest && (ok ==> Contents() == line.value)
    {
      fixedUsed := 0;
      growable := "";
      var prevByte := '\0';
      var i := 0;
      while true
        invariant Valid()
        invariant i == |Contents()| && prevByte == if i == 0 then '\0' else Contents()[i - 1]
        invariant SameScan(stream.input, Contents(), old(stream.input), stream.faulty)
        decreases |stream.input|
      {
        if i >= MAX_LINE_LENGTH {
          SameScanStops(stream.input, Contents(), old(stream.input), stream.faulty);
          return false;
        }
        var n, byte := ReadByte(old(stream.input));
        if n < 0 { return false; }
        if n == 0 { return i != 0; }
        if prevByte == '\r' && byte == '\n' { return true; }
        prevByte := byte;
        i := i + 1;
      }
    }
  }

  /** Going on with `line` from here gives what the whole scan gives. */
  predicate SameScan(input: string, line: string, start: string, faulty: bool) {
    ScanLine(input, line, faulty) == ScanLine(start, "", faulty)
  }

  lemma SameScanStep(input: string, line: string, start: string, faulty: bool)
    requires SameScan(input, line, start, faulty) && |line| < MAX_LINE_LENGTH && input != ""
    ensures if EndsWithCrlf(line + [input[0]])
            then ScanLine(start, "", faulty) == (Some(line + [input[0]]), input[1..])
            else SameScan(input[1..], line + [input[0]], start, faulty)
  {
    ScanStep(input, line, faulty);
  }

  lemma SameScanStops(input: string, line: string, start: string, faulty: bool)
    requires SameScan(input, line, start, faulty)
    ensures |line| >= MAX_LINE_LENGTH ==> ScanLine(start, "", faulty) == (None, input)
    ensures |line| < MAX_LINE_LENGTH && input == "" ==>
              ScanLine(start, "", faulty) == (if faulty || line == "" then None else Some(line), "")
  {
  }

  predicate EndsLine(line: string, c: char) { line != "" && line[|line| - 1] == '\r' && c == '\n' }

  lemma LastTwo(line: string, c: char)
    ensures EndsWithCrlf(line + [c]) <==> EndsLine(line, c)
  {
    if line != "" {
      assert (line + [c])[|line| - 1..] == [line[|line| - 1], c];
    }
  }

  /** `read_content_chunked` with the receiver's bytes and the recorded trailer fields. */
  class ChunkedReader {
    const stream: InStream
    var received: string
    var fields: seq<Field>

    constructor (stream: InStream)
      ensures this.stream == stream && received == "" && fields == []
    {
      this.stream := stream;
      received, fields := "", [];
    }

    method ReadContentWithLength(len: nat) returns (ok: bool)
      modifies this`received, stream
      ensures ok <==> len <= |old(stream.input)|
      ensures ok ==> received == old(received) + old(stream.input)[..len] && stream.input == old(stream.input)[len..]
      ensures !ok ==> received == old(received) + old(stream.input) && stream.input == ""
    {
      var r := 0;
      while r < len
        invariant r <= len && r <= |old(stream.input)|
        invariant received == old(received) + old(stream.input)[..r]
        invariant stream.input == old(stream.input)[r..]
      {
        var readLen := len - r;
        var n, data := stream.Read(if readLen < RECV_BUFSIZ then readLen else RECV_BUFSIZ);
        if n <= 0 {
          assert old(stream.input)[..r] == old(stream.input);
          return false;
        }
        assert old(stream.input)[..r] + data == old(stream.input)[..r + n] by {
          assert old(stream.input)[r..r + n] == data;
        }
        received := received + data;
        r := r + n;
      }
      return true;
    }

    /** The line from a reader on this stream, or false. */
    method NextLine(reader: StreamLineReader) returns (ok: bool)
      requires reader.Valid() && reader.stream == stream
      modifies reader, reader.fixedBuffer, stream
      ensures reader.Valid()
      ensures var (line, rest) := ScanLine(old(stream.input), "", stream.faulty);
              ok == line.Some? && stream.input == rest && (ok ==> reader.Contents() == line.value)
    {
      ok := reader.GetLine();
    }

    method ReadTrailerLines(reader: StreamLineReader) returns (ok: bool)
      requires reader.Valid() && reader.stream == stream
      modifies this`fields, stream, reader, reader.fixedBuffer
      ensures reader.Valid()
      ensures Outcome(ok, received, fields, stream.input)
           == ReadTrailer(TrailerField, old(reader.Contents()), old(stream.input), stream.faulty, received, old(fields))
    {
      ghost var goal :=
        ReadTrailer(TrailerField, reader.Contents(), stream.input, stream.faulty, received, fields);
      while CString(reader.Contents()) != CRLF
        invariant reader.Valid()
        invariant goal == ReadTrailer(TrailerField, reader.Contents(), stream.input, stream.faulty, received, fields)
        decreases |stream.input|
      {
        var line := reader.Contents();
        if |line| > HEADER_MAX_LENGTH { return false; }
        fields := fields + TrailerField(line);
        var more := NextLine(reader);
        if !more { return false; }
      }
      return true;
    }

    /** The data of one chunk, the end of its line, and the next size line. */
    method ReadChunk(reader: StreamLineReader, len: nat) returns (more: bool)
      requires reader.Valid() && reader.stream == stream && fields == []
      requires StrToUL(reader.Contents()) == Some(len) && 0 < len < ULONG_MAX
      modifies this`received, stream, reader, reader.fixedBuffer
      ensures reader.Valid()
      ensures ReadChunks(TrailerField, old(reader.Contents()), old(stream.input), stream.faulty, old(received))
           == if more then ReadChunks(TrailerField, reader.Contents(), stream.input, stream.faulty, received)
              else Outcome(false, received, [], stream.input)
      ensures more ==> |stream.input| < |old(stream.input)|
    {
      var complete := ReadContentWithLength(len);
      if !complete { return false; }
      var end := NextLine(reader);
      if !end || CString(reader.Contents()) != CRLF { return false; }
      more := NextLine(reader);
    }

    method ReadContentChunked() returns (ok: bool)
      requires received == "" && fields == []
      modifies this, stream
      ensures Outcome(ok, received, fields, stream.input)
           == ReadContent(TrailerField, old(stream.input), stream.faulty)
    {
      var reader := new StreamLineReader(stream, 16);
      var first := NextLine(reader);
      if !first { return false; }
      ghost var goal := ReadChunks(TrailerField, reader.Contents(), stream.input, stream.faulty, "");
      while true
        invariant reader.Valid() && fields == []
        invariant goal == ReadChunks(TrailerField, reader.Contents(), stream.input, stream.faulty, received)
        decreases |stream.input|
      {
        var size := StrToUL(reader.Contents());
        if size.None? || size.value == ULONG_MAX { return false; }
        if size.value == 0 { break; }
        var more := ReadChunk(reader, size.value);
        if !more { return false; }
      }
      var more := NextLine(reader);
      if !more { return true; }
      ok := ReadTrailerLines(reader);
    }
  }

  // ---- Writer ----

  /** The writing side of a `Stream`. Once a write has failed, `broken` is set. It may take nothing of
      what it is given, but not for ever: `stalls` bounds how often it still does. */
  class OutStream {
    var output: string
    var broken: bool
    var stalls: nat

    constructor (stalls: nat)
      ensures output == "" && !broken && this.stalls == stalls
    {
      output, broken, this.stalls := "", false, stalls;
    }

    /** Returns a negative count on an error, else how many bytes of `data` were written. */
    method Write(data: string) returns (n: int)
      requires data != ""
      modifies this
      ensures n < 0 ==> broken && output == old(output)
      ensures n >= 0 ==> n <= |data| && output == old(output) + data[..n] && broken == old(broken)
      ensures n == 0 ==> stalls < old(stalls)
    {
      var fails: bool, waits: bool := *, *;
      if fails {
        broken := true;
        return -1;
      }
      if waits && stalls > 0 {
        stalls := stalls - 1;
        assert data[..0] == "" && output + "" == output;
        return 0;
      }
      n :| 1 <= n <= |data|;
      output := output + data[..n];
    }
  }

  datatype SinkOp = Write(data: string) | Finish(fields: seq<Field>)

  /** One call of the content provider: whether the server is found shutting down before it, what
      it does to the sink, and what it returns. */
  datatype ProviderCall = ProviderCall(shuttingDown: bool, ops: seq<SinkOp>, result: bool)

  function OpText(op: SinkOp): string {
    match op
    case Write(data) => ChunkText(data)
    case Finish(fields) => FinishText(fields)
  }

  function OpsText(ops: seq<SinkOp>): string {
    if ops == [] then "" else OpText(ops[0]) + OpsText(ops[1..])
  }

  /** `data_available` after the operations. */
  function Available(ops: seq<SinkOp>, before: bool): bool {
    if ops == [] then before
    else
      var last := ops[|ops| - 1];
      last.Write? && last.data != ""
  }

  lemma OpsTextLast(ops: seq<SinkOp>, op: SinkOp)
    ensures OpsText(ops + [op]) == OpsText(ops) + OpText(op)
  {
    if ops == [] {
      assert ops + [op] == [op];
    } else {
      assert (ops + [op])[1..] == ops[1..] + [op];
      OpsTextLast(ops[1..], op);
      Assoc(OpText(ops[0]), OpsText(ops[1..]), OpText(op));
    }
  }

  /** `now` is the output, and `available` the flag, after the first `i` operations. */
  predicate After(ops: seq<SinkOp>, i: nat, before: string, first: bool, now: string, available: bool) {
    i <= |ops| && now == before + OpsText(ops[..i]) && available == Available(ops[..i], first)
  }

  lemma AfterNone(ops: seq<SinkOp>, before: string, first: bool)
    ensures After(ops, 0, before, first, before, first)
  {
    assert before + "" == before;
  }

  lemma AfterOne(ops: seq<SinkOp>, i: nat, before: string, first: bool, now: string, available: bool)
    requires i < |ops| && After(ops, i, before, first, now, available)
    ensures After(ops, i + 1, before, first, now + OpText(ops[i]), ops[i].Write? && ops[i].data != "")
  {
    assert ops[..i + 1] == ops[..i] + [ops[i]];
    OpsTextLast(ops[..i], ops[i]);
    Assoc(before, OpsText(ops[..i]), OpText(ops[i]));
  }

  lemma AfterAll(ops: seq<SinkOp>, before: string, first: bool, now: string, available: bool)
    requires After(ops, |ops|, before, first, now, available)
    ensures now == before + OpsText(ops) && available == Available(ops, first)
  {
    assert ops[..|ops|] == ops;
  }

  /** Whether the loop of `write_content_chunked` makes another provider call. A script that ends
      while data is still available stands for a server that shuts down. */
  predicate GoesOn(script: seq<ProviderCall>, available: bool) {
    available && script != [] && !script[0].shuttingDown
  }

  /** What `write_content_chunked` emits on a stream that works. */
  function RunText(script: seq<ProviderCall>, available: bool): string
    decreases |script|
  {
    if !GoesOn(script, available) then ""
    else
      OpsText(script[0].ops) +
      if script[0].result then RunText(script[1..], Available(script[0].ops, available)) else ""
  }

  /** Whether it then succeeds. */
  predicate RunSucceeds(script: seq<ProviderCall>, available: bool)
    decreases |script|
  {
    GoesOn(script, available) ==>
      script[0].result && RunSucceeds(script[1..], Available(script[0].ops, available))
  }

  class ChunkedWriter {
    const stream: OutStream
    var dataAvailable: bool
    var ok: bool
    var offset: nat

    constructor (stream: OutStream)
      ensures this.stream == stream && dataAvailable && ok && offset == 0
    {
      this.stream := stream;
      dataAvailable, ok, offset := true, true, 0;
    }

    method WriteData(data: string) returns (done: bool)
      modifies stream
      ensures done ==> stream.output == old(stream.output) + data && stream.broken == old(stream.broken)
      ensures !done ==> stream.broken
    {
      var off := 0;
      while off < |data|
        invariant off <= |data| && stream.broken == old(stream.broken)
        invariant stream.output == old(stream.output) + data[..off]
        decreases |data| - off, stream.stalls
      {
        var length := stream.Write(data[off..]);
        if length < 0 { return false; }
        assert data[..off] + data[off..][..length] == data[..off + length];
        off := off + length;
      }
      assert data[..|data|] == data;
      return true;
    }

    /** `data_sink.write` with the identity compressor. */
    method SinkWrite(data: string) returns (r: bool)
      modifies this, stream
      ensures r == ok
      ensures old(ok) ==> dataAvailable == (data != "") && offset == old(offset) + |data|
      ensures old(ok) && ok ==>
        stream.output == old(stream.output) + ChunkText(data) && stream.broken == old(stream.broken)
      ensures old(ok) && !ok ==> stream.broken
      ensures !old(ok) ==> !ok && dataAvailable == old(dataAvailable) && stream.broken == old(stream.broken)
    {
      if ok {
        dataAvailable := |data| > 0;
        offset := offset + |data|;
        if |data| > 0 {
          var done := WriteData(ToHex(|data|) + CRLF + data + CRLF);
          if !done { ok := false; }
        }
      }
      return ok;
    }

    /** `done` and `done_with_trailer`. A failed write does not stop the following ones. */
    method Done(fields: seq<Field>)
      modifies this, stream
      ensures old(ok) ==> !dataAvailable
      ensures old(ok) && ok ==>
        stream.output == old(stream.output) + FinishText(fields) && stream.broken == old(stream.broken)
      ensures old(ok) && !ok ==> stream.broken
      ensures !old(ok) ==> !ok && dataAvailable == old(dataAvailable) && stream.broken == old(stream.broken)
    {
      if !ok { return; }
      dataAvailable := false;
      var done := WriteData("0" + CRLF);
      if !done { ok := false; }
      for i := 0 to |fields|
        invariant !ok ==> stream.broken
        invariant !dataAvailable
        invariant ok ==> stream.broken == old(stream.broken)
        invariant ok ==>
                    stream.output + TrailerText(fields[i..]) == old(stream.output) + ("0" + CRLF + TrailerText(fields))
      {
        var line := FieldLine(fields[i].0, fields[i].1) + CRLF;
        assert fields[i..][1..] == fields[i + 1..];
        ghost var output := stream.output;
        done := WriteData(line);
        if !done { ok := false; }
        assert ok ==> stream.output + TrailerText(fields[i + 1..]) == output + TrailerText(fields[i..]);
      }
      assert fields[|fields|..] == [];
      done := WriteData(CRLF);
      if !done { ok := false; }
      Assoc(old(stream.output), "0" + CRLF + TrailerText(fields), CRLF);
    }

    method RunOp(op: SinkOp)
      requires ok
      modifies this, stream
      ensures ok ==> dataAvailable == (op.Write? && op.data != "") && stream.broken == old(stream.broken)
      ensures ok ==> stream.output == old(stream.output) + OpText(op)
      ensures !ok ==> stream.broken
    {
      match op
      case Write(data) =>
        var r := SinkWrite(data);
      case Finish(fields) =>
        Done(fields);
    }

    method RunOps(ops: seq<SinkOp>)
      requires ok
      modifies this, stream
      ensures ok ==> dataAvailable == Available(ops, old(dataAvailable)) && stream.broken == old(stream.broken)
      ensures ok ==> stream.output == old(stream.output) + OpsText(ops)
      ensures !ok ==> stream.broken
    {
      ghost var before, first, broken := stream.output, dataAvailable, stream.broken;
      AfterNone(ops, before, first);
      for i := 0 to |ops|
        invariant ok ==> After(ops, i, before, first, stream.output, dataAvailable) && stream.broken == broken
        invariant !ok ==> stream.broken
      {
        if ok {
          AfterOne(ops, i, before, first, stream.output, dataAvailable);
          ghost var next := stream.output + OpText(ops[i]);
          RunOp(ops[i]);
          assert ok ==> stream.output == next;
        }
      }
      if ok {
        AfterAll(ops, before, first, stream.output, dataAvailable);
      }
    }

    /** `write_content_chunked`, driven by a script of provider calls. */
    method WriteContentChunked(script: seq<ProviderCall>) returns (success: bool)
      requires dataAvailable && ok && !stream.broken
      modifies this, stream
      ensures success ==> !stream.broken
      ensures !stream.broken ==> success == RunSucceeds(script, true)
      ensures !stream.broken ==> stream.output == old(stream.output) + RunText(script, true)
    {
      var left := script;
      while GoesOn(left, dataAvailable)
        invariant ok && !stream.broken
        invariant stream.output + RunText(left, dataAvailable) == old(stream.output) + RunText(script, true)
        invariant RunSucceeds(left, dataAvailable) == RunSucceeds(script, true)
        decreases |left|
      {
        ghost var output, available := stream.output, dataAvailable;
        RunOps(left[0].ops);
        if !left[0].result {
          return false;
        }
        if !ok {
          return false;
        }
        Assoc(output, OpsText(left[0].ops), RunText(left[1..], dataAvailable));
        left := left[1..];
      }
      return true;
    }
  }

  // ---- The two together ----

  /** The data that a list of operations writes. */
  function Writes(ops: seq<SinkOp>): seq<string> {
    if ops == [] then []
    else (if ops[0].Write? then [ops[0].data] else []) + Writes(ops[1..])
  }

  /** Non-empty writes only. */
  predicate OnlyWrites(ops: seq<SinkOp>) {
    forall op :: op in ops ==> op.Write? && op.data != ""
  }

  /** A provider that keeps writing, is never cut short, and finishes as its last act. */
  predicate Complete(script: seq<ProviderCall>, fields: seq<Field>)
    decreases |script|
  {
    && script != [] && !script[0].shuttingDown && script[0].result
    && if |script| == 1 then
         script[0].ops != [] && script[0].ops[|script[0].ops| - 1] == Finish(fields)
         && OnlyWrites(script[0].ops[..|script[0].ops| - 1])
       else OnlyWrites(script[0].ops) && Complete(script[1..], fields)
  }

  function ScriptWrites(script: seq<ProviderCall>): seq<string> {
    if script == [] then [] else Writes(script[0].ops) + ScriptWrites(script[1..])
  }

  lemma WritesText(ops: seq<SinkOp>, fields: seq<Field>)
    requires OnlyWrites(ops)
    ensures OpsText(ops) == ChunksText(Writes(ops))
    ensures OpsText(ops + [Finish(fields)]) == ChunksText(Writes(ops)) + FinishText(fields)
    ensures Writes(ops + [Finish(fields)]) == Writes(ops)
  {
    if ops != [] {
      WritesText(ops[1..], fields);
      assert Writes(ops) == [ops[0].data] + Writes(ops[1..]);
      assert Writes(ops)[1..] == Writes(ops[1..]);
      Assoc(OpText(ops[0]), ChunksText(Writes(ops[1..])), FinishText(fields));
      assert (ops + [Finish(fields)])[1..] == ops[1..] + [Finish(fields)];
    } else {
      assert ops + [Finish(fields)] == [Finish(fields)];
    }
  }

  lemma ChunksTextConcat(a: seq<string>, b: seq<string>)
    ensures ChunksText(a + b) == ChunksText(a) + ChunksText(b)
  {
    if a == [] {
      assert a + b == b;
    } else {
      assert (a + b)[1..] == a[1..] + b;
      ChunksTextConcat(a[1..], b);
      Assoc(ChunkText(a[0]), ChunksText(a[1..]), ChunksText(b));
    }
  }

  lemma NonEmptyWrites(ops: seq<SinkOp>)
    requires OnlyWrites(ops)
    ensures Available(ops, true)
  {
  }

  /** A complete run emits one chunk for each write, then the end of the message, and succeeds. */
  lemma {:induction false} CompleteRunText(script: seq<ProviderCall>, fields: seq<Field>)
    requires Complete(script, fields)
    ensures RunText(script, true) == ChunksText(ScriptWrites(script)) + FinishText(fields)
    ensures RunSucceeds(script, true)
    decreases |script|
  {
    var ops, others := script[0].ops, script[1..];
    if |script| == 1 {
      var writes := ops[..|ops| - 1];
      assert ops == writes + [Finish(fields)];
      WritesText(writes, fields);
      assert others == [];
      assert ScriptWrites(script) == Writes(ops);
    } else {
      NonEmptyWrites(ops);
      WritesText(ops, fields);
      CompleteRunText(others, fields);
      ChunksTextConcat(Writes(ops), ScriptWrites(others));
      Assoc(ChunksText(Writes(ops)), ChunksText(ScriptWrites(others)), FinishText(fields));
    }
  }

  /** Chunked coding round trip, from the calls of the content provider to the bytes delivered:
      what a complete run puts on the stream is read back as the data it wrote. */
  lemma CompleteRunRoundTrip(script: seq<ProviderCall>, fields: seq<Field>, rest: string, faulty: bool)
    requires Complete(script, fields)
    requires forall d :: d in ScriptWrites(script) ==> |d| < ULONG_MAX
    requires forall f :: f in fields ==> CarriedField(f)
    ensures ReadContent(TrailerField, RunText(script, true) + rest, faulty)
         == Outcome(true, Concat(ScriptWrites(script)), fields, rest)
  {
    CompleteRunText(script, fields);
    ChunkedRoundTrip(ScriptWrites(script), fields, rest, faulty);
  }

  // ---- Any run ----

  /** The operations of the calls that a run makes. */
  function Ran(script: seq<ProviderCall>, available: bool): seq<SinkOp>
    decreases |script|
  {
    if !GoesOn(script, available) then []
    else
      script[0].ops + if script[0].result then Ran(script[1..], Available(script[0].ops, available)) else []
  }

  lemma {:induction false} OpsTextConcat(a: seq<SinkOp>, b: seq<SinkOp>)
    ensures OpsText(a + b) == OpsText(a) + OpsText(b)
  {
    if a == [] {
      assert a + b == b;
    } else {
      assert (a + b)[1..] == a[1..] + b;
      OpsTextConcat(a[1..], b);
      Assoc(OpText(a[0]), OpsText(a[1..]), OpsText(b));
    }
  }

  lemma {:induction false} RunTextIsOpsText(script: seq<ProviderCall>, available: bool)
    ensures RunText(script, available) == OpsText(Ran(script, available))
    decreases |script|
  {
    if GoesOn(script, available) {
      var ops, next := script[0].ops, Available(script[0].ops, available);
      RunTextIsOpsText(script[1..], next);
      OpsTextConcat(ops, if script[0].result then Ran(script[1..], next) else []);
    }
  }

  predicate Finishes(ops: seq<SinkOp>) { ops != [] && (ops[0].Finish? || Finishes(ops[1..])) }

  function BeforeFinish(ops: seq<SinkOp>): seq<SinkOp> {
    if ops == [] || ops[0].Finish? then [] else [ops[0]] + BeforeFinish(ops[1..])
  }

  function AfterFinish(ops: seq<SinkOp>): seq<SinkOp> {
    if ops == [] then [] else if ops[0].Finish? then ops[1..] else AfterFinish(ops[1..])
  }

  /** The trailer of the first end of message. */
  function Trailer(ops: seq<SinkOp>): seq<Field> {
    if ops == [] then [] else if ops[0].Finish? then ops[0].fields else Trailer(ops[1..])
  }

  /** The text behind the first end of message, with it. */
  function EndText(ops: seq<SinkOp>): string {
    if Finishes(ops) then FinishText(Trailer(ops)) + OpsText(AfterFinish(ops)) else ""
  }

  lemma WritesOfFront(op: SinkOp, ops: seq<SinkOp>)
    requires op.Write?
    ensures Writes([op] + ops) == [op.data] + Writes(ops)
    ensures ChunksText(Writes([op] + ops)) == OpText(op) + ChunksText(Writes(ops))
  {
    assert ([op] + ops)[1..] == ops;
    assert ([op.data] + Writes(ops))[1..] == Writes(ops);
  }

  /** The text of any operations: chunks, and the first end of message with what follows it. */
  lemma {:induction false} OpsTextShape(ops: seq<SinkOp>)
    ensures OpsText(ops) == ChunksText(Writes(BeforeFinish(ops))) + EndText(ops)
  {
    if ops != [] && ops[0].Write? {
      OpsTextShape(ops[1..]);
      WritesOfFront(ops[0], BeforeFinish(ops[1..]));
      Assoc(OpText(ops[0]), ChunksText(Writes(BeforeFinish(ops[1..]))), EndText(ops[1..]));
    }
  }

  /** What the reader makes of any operations: it delivers what was written before the first that ends
      the message, and fails if there is none. With a trailer that can be carried it succeeds otherwise,
      reads that trailer, and leaves the rest. */
  lemma OpsReadBack(ops: seq<SinkOp>, faulty: bool)
    requires forall d :: d in Writes(BeforeFinish(ops)) ==> |d| < ULONG_MAX
    ensures var r := ReadContent(TrailerField, OpsText(ops), faulty);
            && r.payload == Concat(Writes(BeforeFinish(ops)))
            && (r.ok ==> Finishes(ops))
            && (Finishes(ops) && (forall f :: f in Trailer(ops) ==> CarriedField(f)) ==>
                  r.ok && r.fields == Trailer(ops) && r.rest == OpsText(AfterFinish(ops)))
  {
    var data := Writes(BeforeFinish(ops));
    OpsTextShape(ops);
    if Finishes(ops) {
      var fields, after := Trailer(ops), OpsText(AfterFinish(ops));
      FinishedText(fields, after);
      EndKeepsPayload(TrailerField, data, TrailerText(fields) + CRLF + after, faulty);
      if forall f :: f in fields ==> CarriedField(f) {
        ChunkedRoundTrip(data, fields, after, faulty);
        Assoc(ChunksText(data), FinishText(fields), after);
      }
    } else {
      assert ChunksText(data) + "" == ChunksText(data);
      UnfinishedMessage(TrailerField, data, faulty);
    }
  }

  lemma FinishedText(fields: seq<Field>, after: string)
    ensures FinishText(fields) + after == "0" + CRLF + (TrailerText(fields) + CRLF + after)
  {
  }

  predicate WritesNothing(ops: seq<SinkOp>) {
    forall i :: 0 <= i < |ops| ==> ops[i].Write? ==> ops[i].data == ""
  }

  /** All that the operations write. */
  function Written(ops: seq<SinkOp>): string {
    if ops == [] then "" else (if ops[0].Write? then ops[0].data else "") + Written(ops[1..])
  }

  lemma {:induction false} WrittenIsConcat(ops: seq<SinkOp>)
    ensures Concat(Writes(ops)) == Written(ops)
  {
    if ops != [] {
      WrittenIsConcat(ops[1..]);
      if ops[0].Write? {
        assert ([ops[0].data] + Writes(ops[1..]))[1..] == Writes(ops[1..]);
      } else {
        assert [] + Writes(ops[1..]) == Writes(ops[1..]);
        assert "" + Written(ops[1..]) == Written(ops[1..]);
      }
    }
  }

  lemma {:induction false} NothingWritten(ops: seq<SinkOp>)
    ensures Written(ops) == "" <==> WritesNothing(ops)
  {
    if ops != [] {
      NothingWritten(ops[1..]);
      assert ops == [ops[0]] + ops[1..];
    }
  }

  lemma {:induction false} WrittenInAll(ops: seq<SinkOp>)
    requires Finishes(ops)
    ensures Written(ops) == Written(BeforeFinish(ops)) + Written(AfterFinish(ops))
  {
    if ops[0].Write? {
      WrittenInAll(ops[1..]);
      assert ([ops[0]] + BeforeFinish(ops[1..]))[1..] == BeforeFinish(ops[1..]);
      Assoc(ops[0].data, Written(BeforeFinish(ops[1..])), Written(AfterFinish(ops[1..])));
    } else {
      assert "" + Written(ops[1..]) == Written(ops[1..]);
    }
  }

  lemma PartIsAll(before: string, after: string)
    ensures before == before + after <==> after == ""
  {
    assert |before + after| == |before| + |after|;
    assert after == "" ==> before + after == before;
  }

  /** The round trip of any run: what is delivered is what was written before the first end of the
      message; so it is all that was written if and only if no data was written after it. The reader
      succeeds only if there is such an end, and does if its trailer can be carried. */
  lemma RoundTripIff(script: seq<ProviderCall>, faulty: bool)
    requires forall d :: d in Writes(BeforeFinish(Ran(script, true))) ==> |d| < ULONG_MAX
    ensures var ops := Ran(script, true);
            var r := ReadContent(TrailerField, RunText(script, true), faulty);
            && r.payload == Written(BeforeFinish(ops))
            && (r.payload == Written(ops) <==> WritesNothing(AfterFinish(ops)))
            && (r.ok ==> Finishes(ops))
            && ((forall f :: f in Trailer(ops) ==> CarriedField(f)) ==> (r.ok <==> Finishes(ops)))
  {
    var ops := Ran(script, true);
    RunTextIsOpsText(script, true);
    OpsReadBack(ops, faulty);
    WrittenIsConcat(BeforeFinish(ops));
    if Finishes(ops) {
      WrittenInAll(ops);
      NothingWritten(AfterFinish(ops));
      PartIsAll(Written(BeforeFinish(ops)), Written(AfterFinish(ops)));
    } else {
      NeverFinished(ops);
    }
  }

  lemma {:induction false} NeverFinished(ops: seq<SinkOp>)
    requires !Finishes(ops)
    ensures BeforeFinish(ops) == ops && AfterFinish(ops) == []
  {
    if ops != [] {
      NeverFinished(ops[1..]);
      assert ops == [ops[0]] + ops[1..];
    }
  }

  lemma WritesThenEmpty(ops: seq<SinkOp>)
    requires OnlyWrites(ops)
    ensures OpsText(ops + [Write("")]) == ChunksText(Writes(ops))
  {
    OpsTextLast(ops, Write(""));
    WritesText(ops, []);
    assert OpsText(ops) + "" == OpsText(ops);
  }

  /** Why the writes must not be empty: an empty write ends the run as a success, but without the
      end of the message, so that the reader delivers the data and then fails. */
  lemma EmptyWriteTruncates(ops: seq<SinkOp>, faulty: bool)
    requires OnlyWrites(ops) && ops != []
    requires forall d :: d in Writes(ops) ==> 0 < |d| < ULONG_MAX
    ensures var script := [ProviderCall(false, ops + [Write("")], true)];
            && RunSucceeds(script, true)
            && var r := ReadContent(TrailerField, RunText(script, true), faulty);
            !r.ok && r.payload == Concat(Writes(ops))
  {
    var script := [ProviderCall(false, ops + [Write("")], true)];
    assert script[1..] == [];
    assert !Available(script[0].ops, true);
    WritesThenEmpty(ops);
    assert RunText(script, true) == ChunksText(Writes(ops)) + "" == ChunksText(Writes(ops));
    UnfinishedMessage(TrailerField, Writes(ops), faulty);
  }
}
