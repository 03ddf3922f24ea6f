/** The multipart parser inverts the serializer for every way of cutting the text into chunks. */
module MultipartProof {
  import opened Options
  import opened Text
  import opened Multipart
  import opened MultipartLayout

  // ---- What the serializer prints ----

  /** A part the format can carry: its content hides no delimiter, its header lines are short
      enough and the header reader gives its description back. */
  predicate WellFormed(c: Setup, part: Part) {
    WrittenWith(c, HeaderLines(part.info), part)
  }

  /** The text after a delimiter, when `parts` are still to come. */
  function AfterBoundary(boundary: string, parts: seq<Part>): string
    decreases |parts|, 1
  {
    if parts == [] then "--" + CRLF else CRLF + PartsText(boundary, parts)
  }

  function BodyText(boundary: string, parts: seq<Part>): string
    requires parts != []
    decreases |parts|, -1
  {
    parts[0].content + CrlfDashBoundary(boundary) + AfterBoundary(boundary, parts[1..])
  }

  function PartsText(boundary: string, parts: seq<Part>): string
    requires parts != []
    decreases |parts|, 0
  {
    LinesText(HeaderLines(parts[0].info)) + CRLF + BodyText(boundary, parts)
  }

  lemma TailShape(boundary: string, parts: seq<Part>)
    ensures CRLF + Serialize(parts, boundary) == CrlfDashBoundary(boundary) + AfterBoundary(boundary, parts)
    decreases |parts|, 1
  {
    if parts != [] {
      SerializeShape(boundary, parts);
      assert CRLF + DashBoundaryCrlf(boundary) == CrlfDashBoundary(boundary) + CRLF;
      var text := PartsText(boundary, parts);
      Assoc(CRLF, DashBoundaryCrlf(boundary), text);
      Assoc(CrlfDashBoundary(boundary), CRLF, text);
    } else {
      TailOfNone(boundary);
    }
  }

  lemma TailOfNone(boundary: string)
    ensures CRLF + Serialize([], boundary) == CrlfDashBoundary(boundary) + AfterBoundary(boundary, [])
  {
  }

  /** The serializer's text is an opening delimiter line followed by the parts. */
  lemma {:induction false} SerializeShape(boundary: string, parts: seq<Part>)
    requires parts != []
    ensures Serialize(parts, boundary) == DashBoundaryCrlf(boundary) + PartsText(boundary, parts)
    decreases |parts|, 0
  {
    var rest := parts[1..];
    TailShape(boundary, rest);
    var lines := LinesText(HeaderLines(parts[0].info));
    var content := parts[0].content;
    Regroup(DashBoundaryCrlf(boundary), lines, content, Serialize(rest, boundary));
    assert BodyText(boundary, parts) == content + (CRLF + Serialize(rest, boundary));
  }

  // ---- The round trip ----

  /** The header lines that the serializer prints. */
  function Printed(parts: seq<Part>): (r: Layout)
    ensures |r| == |parts|
  {
    seq(|parts|, i requires 0 <= i < |parts| => HeaderLines(parts[i].info))
  }

  lemma PrintedWritten(c: Setup, parts: seq<Part>)
    requires forall part :: part in parts ==> WellFormed(c, part)
    ensures Written(c, Printed(parts), parts)
  {
    forall i | 0 <= i < |parts|
      ensures WrittenWith(c, Printed(parts)[i], parts[i])
    {
      assert WellFormed(c, parts[i]);
    }
  }

  /** With those lines it is the serialized form. */
  lemma {:induction false} PrintedSame(boundary: string, layout: Layout, parts: seq<Part>)
    requires |parts| <= |layout|
    requires forall i :: 0 <= i < |parts| ==> layout[|layout| - |parts| + i] == HeaderLines(parts[i].info)
    ensures SerializeWith(boundary, layout, parts) == Serialize(parts, boundary)
    decreases |parts|
  {
    if parts != [] {
      assert layout[|layout| - |parts| + 0] == HeaderLines(parts[0].info);
      PrintedSame(boundary, layout, parts[1..]);
      SameBlock("--" + boundary + CRLF, LinesText(HeaderLines(parts[0].info)), parts[0].content,
                Serialize(parts[1..], boundary));
    }
  }

  lemma SameBlock(open: string, lines: string, content: string, rest: string)
    ensures open + lines + CRLF + content + CRLF + rest == (open + lines + CRLF) + content + CRLF + rest
  {
  }

  /** Round trip: whatever the chunks, as long as the opening delimiter line is not cut, the parser
      accepts every chunk, ends valid, and delivers exactly the serialized parts. */
  lemma ParseInvertsSerialize(c: Setup, parts: seq<Part>, chunks: seq<string>)
    requires ValidBoundary(c.boundary) && (forall es :: c.answer(es)) && parts != []
    requires forall part :: part in parts ==> WellFormed(c, part)
    requires Concat(chunks) == Serialize(parts, c.boundary)
    requires OpeningArrivesWhole(c.boundary, chunks)
    ensures FeedAll(c, INITIAL, chunks).1
    ensures FeedAll(c, INITIAL, chunks).0.isValid
    ensures Delivered(FeedAll(c, INITIAL, chunks).0.events) == parts
  {
    PrintedWritten(c, parts);
    PrintedSame(c.boundary, Printed(parts), parts);
    ParseInvertsWith(c, Printed(parts), parts, chunks);
  }

  // ---- The opening delimiter line cut by the chunking ----

  /** A part without its opening delimiter line, up to the next delimiter. */
  function Block(part: Part): string {
    LinesText(HeaderLines(part.info)) + CRLF + part.content + CRLF
  }

  predicate ShowsNoOpening(boundary: string, part: Part) {
    FindFrom(Block(part), DashBoundaryCrlf(boundary), 0).None?
  }

  predicate NotOnlyDashes(boundary: string) {
    exists i :: 0 <= i < |boundary| && boundary[i] != '-'
  }

  lemma SerializeBlocks(boundary: string, parts: seq<Part>)
    requires parts != []
    ensures Serialize(parts, boundary)
         == DashBoundaryCrlf(boundary) + Block(parts[0]) + Serialize(parts[1..], boundary)
  {
  }

  /** An occurrence of a line ending in the line's only line feed cannot run over a line feed. */
  lemma NoLineFeedInside(text: string, line: string, j: nat, k: nat)
    requires OccursAt(text, line, j) && j <= k < j + |line| - 1
    requires forall i :: 0 <= i < |line| - 1 ==> line[i] != '\n'
    ensures text[k] != '\n'
  {
    assert text[j..j + |line|][k - j] == text[k];
  }

  lemma OpeningHasOneLineFeed(boundary: string)
    requires ValidBoundary(boundary)
    ensures var opening := DashBoundaryCrlf(boundary);
            opening[|opening| - 1] == '\n' && forall i :: 0 <= i < |opening| - 1 ==> opening[i] != '\n'
  {
  }

  lemma DashesPropagate(b: string, i: nat)
    requires "--" + b == b + "--" && i < |b|
    ensures b[i] == '-'
  {
    if i < 2 {
      assert ("--" + b)[i] == '-';
      assert (b + "--")[i] == b[i];
    } else {
      DashesPropagate(b, i - 2);
      assert ("--" + b)[i] == b[i - 2];
      assert (b + "--")[i] == b[i];
    }
  }

  lemma ClosingShowsNoOpening(boundary: string, j: nat)
    requires ValidBoundary(boundary) && NotOnlyDashes(boundary)
    ensures !OccursAt("--" + boundary + "--" + CRLF, DashBoundaryCrlf(boundary), j)
  {
    var closing := "--" + boundary + "--" + CRLF;
    var opening := DashBoundaryCrlf(boundary);
    if OccursAt(closing, opening, j) {
      assert closing[j..j + |opening|][|boundary| + 2] == closing[j + |boundary| + 2];
      assert j == 2;
      assert closing[2..2 + |boundary| + 2] == boundary + "--";
      assert closing[2..2 + |opening|][..|boundary| + 2] == "--" + boundary;
      var i :| 0 <= i < |boundary| && boundary[i] != '-';
      DashesPropagate(boundary, i);
    }
  }

  /** The opening delimiter line occurs in the serialized text only where a part starts. */
  lemma {:induction false} OpeningStartsPart(boundary: string, parts: seq<Part>, j: nat) returns (m: nat)
    requires ValidBoundary(boundary) && NotOnlyDashes(boundary)
    requires forall part :: part in parts ==> ShowsNoOpening(boundary, part)
    requires OccursAt(Serialize(parts, boundary), DashBoundaryCrlf(boundary), j)
    ensures m < |parts| && Serialize(parts, boundary)[j..] == Serialize(parts[m..], boundary)
    ensures m == 0 <==> j == 0
    decreases |parts|
  {
    var opening := DashBoundaryCrlf(boundary);
    var text := Serialize(parts, boundary);
    m := 0;
    if parts == [] {
      ClosingShowsNoOpening(boundary, j);
    } else if j == 0 {
      assert parts[0..] == parts;
    } else {
      SerializeBlocks(boundary, parts);
      var block := Block(parts[0]);
      var rest := Serialize(parts[1..], boundary);
      InsideBlock(boundary, parts[0], rest, j);
      OccursAfter(opening + block, rest, opening, j);
      var m' := OpeningStartsPart(boundary, parts[1..], j - |opening + block|);
      m := m' + 1;
      assert parts[1..][m'..] == parts[m..];
    }
  }

  lemma OccursInMiddle(a: string, b: string, c: string, d: string, j: nat)
    requires OccursAt(a + b + c, d, j) && |a| <= j && j + |d| <= |a| + |b|
    ensures OccursAt(b, d, j - |a|)
  {
    assert (a + b + c)[j..j + |d|] == b[j - |a|..j - |a| + |d|];
  }

  lemma InsideBlock(boundary: string, part: Part, rest: string, j: nat)
    requires ValidBoundary(boundary) && ShowsNoOpening(boundary, part) && 0 < j
    requires OccursAt(DashBoundaryCrlf(boundary) + Block(part) + rest, DashBoundaryCrlf(boundary), j)
    ensures |DashBoundaryCrlf(boundary)| + |Block(part)| <= j
  {
    var opening := DashBoundaryCrlf(boundary);
    var block := Block(part);
    var text := opening + block + rest;
    OpeningHasOneLineFeed(boundary);
    assert text[|opening| - 1] == '\n';
    assert text[|opening| + |block| - 1] == block[|block| - 1] == '\n';
    if j < |opening| {
      NoLineFeedInside(text, opening, j, |opening| - 1);
    } else if j + |opening| <= |opening| + |block| {
      OccursInMiddle(opening, block, rest, opening, j);
    } else if j < |opening| + |block| {
      NoLineFeedInside(text, opening, j, |opening| + |block| - 1);
    }
  }

  /** A parser that has lost the beginning: it waits in state 0 with an empty buffer. */
  ghost predicate Waiting(p: Parser) {
    p.state == 0 && !p.isValid && p.buf == "" && p.events == []
  }

  /** A chunk without the opening line is thrown away whole. */
  lemma ChunkLost(c: Setup, p: Parser, chunk: string)
    requires Waiting(p) && FindFrom(chunk, DashBoundaryCrlf(c.boundary), 0).None?
    ensures Feed(c, p, chunk) == (p, true)
  {
    assert p.buf + chunk == chunk;
    assert chunk[|chunk|..] == "";
  }

  /** A chunk with the opening line is cut down to it. */
  lemma ChunkTrimmed(c: Setup, p: Parser, chunk: string, i: nat)
    requires Waiting(p) && FindFrom(chunk, DashBoundaryCrlf(c.boundary), 0) == Some(i)
    ensures Feed(c, p, chunk) == Drain(c, p.(buf := chunk[i..]))
    ensures DashBoundaryCrlf(c.boundary) <= chunk[i..]
  {
    var opening := DashBoundaryCrlf(c.boundary);
    assert p.buf + chunk == chunk;
    assert chunk[i..i + |opening|] == chunk[i..][..|opening|];
    assert OccursAt(chunk[i..], opening, 0);
    assert chunk[i..][0..] == chunk[i..];
  }

  /** From the first chunk that shows an opening line on, the parser is in step with the text. */
  lemma WaitingEnds(c: Setup, p: Parser, chunks: seq<string>, parts: seq<Part>, i: nat)
    requires ValidBoundary(c.boundary) && forall es :: c.answer(es)
    requires forall part :: part in parts ==> WellFormed(c, part)
    requires Waiting(p) && parts != [] && chunks != []
    requires FindFrom(chunks[0], DashBoundaryCrlf(c.boundary), 0) == Some(i)
    requires chunks[0][i..] + Concat(chunks[1..]) == Serialize(parts, c.boundary)
    ensures FeedAll(c, p, chunks).1 && FeedAll(c, p, chunks).0.isValid
    ensures Delivered(FeedAll(c, p, chunks).0.events) == parts
  {
    ChunkTrimmed(c, p, chunks[0], i);
    var layout := Printed(parts);
    PrintedWritten(c, parts);
    PrintedSame(c.boundary, layout, parts);
    ShapeWith(c.boundary, layout, parts);
    var q := p.(buf := chunks[0][i..]);
    var w := Advance(c, layout, AtStart, q, Concat(chunks[1..]), parts);
    FeedInStep(c, layout, w, Feed(c, p, chunks[0]).0, chunks[1..], parts);
  }

  lemma OpeningInChunk(chunk: string, rest: string, text: string, k: nat, opening: string, i: nat)
    requires k <= |text| && text[k..] == chunk + rest && OccursAt(chunk, opening, i)
    ensures OccursAt(text, opening, k + i) && text[k + i..] == chunk[i..] + rest
  {
    assert chunk[i..i + |opening|] == text[k..][i..i + |opening|] == text[k + i..k + i + |opening|];
    assert text[k + i..] == text[k..][i..];
  }

  lemma SkipChunk(text: string, k: nat, chunk: string, rest: string)
    requires k <= |text| && text[k..] == chunk + rest
    ensures k + |chunk| <= |text| && text[k + |chunk|..] == rest
  {
    assert |text[k..]| == |chunk| + |rest|;
    assert text[k + |chunk|..] == text[k..][|chunk|..];
  }

  lemma WaitingFinds(c: Setup, p: Parser, chunks: seq<string>, parts: seq<Part>, k: nat, i: nat)
    returns (m: nat)
    requires ValidBoundary(c.boundary) && NotOnlyDashes(c.boundary) && forall es :: c.answer(es)
    requires forall part :: part in parts ==> WellFormed(c, part) && ShowsNoOpening(c.boundary, part)
    requires Waiting(p) && chunks != [] && 0 < k + i && k <= |Serialize(parts, c.boundary)|
    requires chunks[0] + Concat(chunks[1..]) == Serialize(parts, c.boundary)[k..]
    requires FindFrom(chunks[0], DashBoundaryCrlf(c.boundary), 0) == Some(i)
    ensures FeedAll(c, p, chunks).1 && 0 < m < |parts|
    ensures Delivered(FeedAll(c, p, chunks).0.events) == parts[m..] && FeedAll(c, p, chunks).0.isValid
  {
    var text := Serialize(parts, c.boundary);
    OpeningInChunk(chunks[0], Concat(chunks[1..]), text, k, DashBoundaryCrlf(c.boundary), i);
    m := OpeningStartsPart(c.boundary, parts, k + i);
    WaitingEnds(c, p, chunks, parts[m..], i);
  }

  /** Only a whole suffix of the parts is delivered, and never the first one. */
  lemma {:induction false} WaitingRun(c: Setup, p: Parser, chunks: seq<string>, parts: seq<Part>, k: nat)
    returns (m: nat)
    requires ValidBoundary(c.boundary) && NotOnlyDashes(c.boundary) && forall es :: c.answer(es)
    requires forall part :: part in parts ==> WellFormed(c, part) && ShowsNoOpening(c.boundary, part)
    requires Waiting(p) && parts != [] && k <= |Serialize(parts, c.boundary)|
    requires Concat(chunks) == Serialize(parts, c.boundary)[k..]
    requires k > 0 || !OpeningArrivesWhole(c.boundary, chunks)
    ensures FeedAll(c, p, chunks).1 && 0 < m <= |parts|
    ensures Delivered(FeedAll(c, p, chunks).0.events) == parts[m..]
    ensures FeedAll(c, p, chunks).0.isValid <==> m < |parts|
    decreases |chunks|
  {
    m := |parts|;
    if chunks != [] {
      var text := Serialize(parts, c.boundary);
      var opening := DashBoundaryCrlf(c.boundary);
      var chunk, rest := chunks[0], Concat(chunks[1..]);
      assert text[k..] == chunk + rest;
      match FindFrom(chunk, opening, 0)
      case None =>
        ChunkLost(c, p, chunk);
        SkipChunk(text, k, chunk, rest);
        m := WaitingRun(c, p, chunks[1..], parts, k + |chunk|);
        assert FeedAll(c, p, chunks) == FeedAll(c, p, chunks[1..]);
      case Some(i) =>
        m := WaitingFinds(c, p, chunks, parts, k, i);
    }
  }

  /** Under any chunking the parser accepts every chunk and delivers a suffix of the parts. If the opening
      delimiter line was cut, it loses at least the first part; if it loses all, it does not report success. */
  lemma DeliversSuffix(c: Setup, parts: seq<Part>, chunks: seq<string>) returns (m: nat)
    requires ValidBoundary(c.boundary) && NotOnlyDashes(c.boundary)
    requires (forall es :: c.answer(es)) && parts != []
    requires forall part :: part in parts ==> WellFormed(c, part) && ShowsNoOpening(c.boundary, part)
    requires Concat(chunks) == Serialize(parts, c.boundary)
    ensures m <= |parts| && FeedAll(c, INITIAL, chunks).1
    ensures Delivered(FeedAll(c, INITIAL, chunks).0.events) == parts[m..]
    ensures FeedAll(c, INITIAL, chunks).0.isValid <==> m < |parts|
    ensures m == 0 <==> OpeningArrivesWhole(c.boundary, chunks)
  {
    if OpeningArrivesWhole(c.boundary, chunks) {
      ParseInvertsSerialize(c, parts, chunks);
      m := 0;
      assert parts[0..] == parts;
    } else {
      var text := Serialize(parts, c.boundary);
      assert text[0..] == text;
      m := WaitingRun(c, INITIAL, chunks, parts, 0);
    }
  }
}
