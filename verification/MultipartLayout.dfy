/** The multipart parser delivers the parts of a form, however the form is cut into chunks and whatever header
    lines describe its parts, as long as the header reader gives the descriptions back. */
module MultipartLayout {
  import opened Text
  import opened Fields
  import opened Multipart

  // ---- What the text looks like from each state of the parser ----

  /** `is_multipart_boundary_chars_valid`. */
  predicate ValidBoundary(boundary: string) {
    forall i :: 0 <= i < |boundary| ==> IsAlnum(boundary[i]) || boundary[i] == '-' || boundary[i] == '_'
  }

  predicate GoodLine(line: string) {
    line != "" && |line| < HEADER_MAX_LENGTH && FindFrom(line, CRLF, 0).None?
  }

  /** The header lines of each part. */
  type Layout = seq<seq<string>>

  /** Those of the first of the parts that are still to come. */
  function LinesFor(layout: Layout, parts: seq<Part>): seq<string>
    requires 0 < |parts| <= |layout|
  {
    layout[|layout| - |parts|]
  }

  /** A part the format can carry with these header lines: its content hides no delimiter, the lines are
      short enough, and the header reader makes the description of them. */
  predicate WrittenWith(c: Setup, lines: seq<string>, part: Part) {
    && FindFrom(part.content, CrlfDashBoundary(c.boundary), 0).None?
    && (forall line :: line in lines ==> GoodLine(line))
    && ReadHeaders(c, NO_FILE, lines) == (part.info, true)
  }

  predicate Written(c: Setup, layout: Layout, total: seq<Part>) {
    |layout| == |total| && forall i :: 0 <= i < |total| ==> WrittenWith(c, layout[i], total[i])
  }

  /** The text after a delimiter, when `parts` are still to come. */
  function AfterWith(boundary: string, layout: Layout, parts: seq<Part>): string
    requires |parts| <= |layout|
    decreases |parts|, 1
  {
    if parts == [] then "--" + CRLF else CRLF + PartsWith(boundary, layout, parts)
  }

  function BodyWith(boundary: string, layout: Layout, parts: seq<Part>): string
    requires 0 < |parts| <= |layout|
    decreases |parts|, -1
  {
    parts[0].content + CrlfDashBoundary(boundary) + AfterWith(boundary, layout, parts[1..])
  }

  function PartsWith(boundary: string, layout: Layout, parts: seq<Part>): string
    requires 0 < |parts| <= |layout|
    decreases |parts|, 0
  {
    LinesText(LinesFor(layout, parts)) + CRLF + BodyWith(boundary, layout, parts)
  }

  /** The parts a caller collects from the callbacks. */
  function Delivered(events: seq<Event>): seq<Part> {
    if events == [] then []
    else
      var before := Delivered(events[..|events| - 1]);
      match events[|events| - 1]
      case PartBegins(info) => before + [Part(info, "")]
      case Content(data) =>
        if before == [] then []
        else
          var last := before[|before| - 1];
          before[..|before| - 1] + [last.(content := last.content + data)]
  }

  lemma DeliveredContent(events: seq<Event>, done: seq<Part>, last: Part, data: string)
    requires Delivered(events) == done + [last]
    ensures Delivered(events + [Content(data)]) == done + [last.(content := last.content + data)]
  {
    assert (events + [Content(data)])[..|events|] == events;
  }

  lemma DeliveredBegins(events: seq<Event>, info: FileInfo)
    ensures Delivered(events + [PartBegins(info)]) == Delivered(events) + [Part(info, "")]
  {
    assert (events + [PartBegins(info)])[..|events|] == events;
  }

  /** Where in the text the parser stands. */
  datatype Where =
    | AtStart
    | AtPart(parts: seq<Part>)
    | AtLines(lines: seq<string>, parts: seq<Part>)
    | AtBody(done: seq<Part>, got: string, left: string, parts: seq<Part>)
    | AtBoundary(parts: seq<Part>)
    | Done

  /** The parser's state, buffer and callbacks agree with a place in the text; `rest` is what has
      not been given to the parser yet. */
  ghost predicate Rel(c: Setup, layout: Layout, w: Where, p: Parser, rest: string, total: seq<Part>) {
    |layout| == |total| &&
    var text := p.buf + rest;
    match w
    case AtStart =>
      && p.state == 0 && !p.isValid && p.events == [] && total != []
      && text == DashBoundaryCrlf(c.boundary) + PartsWith(c.boundary, layout, total)
      && (p.buf == "" || |DashBoundaryCrlf(c.boundary)| <= |p.buf|)
    case AtPart(parts) =>
      && p.state == 1 && !p.isValid && 0 < |parts| <= |layout|
      && text == PartsWith(c.boundary, layout, parts)
      && Delivered(p.events) + parts == total
    case AtLines(lines, parts) =>
      && p.state == 2 && !p.isValid && 0 < |parts| <= |layout|
      && text == LinesText(lines) + CRLF + BodyWith(c.boundary, layout, parts)
      && (forall line :: line in lines ==> GoodLine(line))
      && ReadHeaders(c, p.file, lines) == (parts[0].info, true)
      && Delivered(p.events) + parts == total
    case AtBody(done, got, left, parts) =>
      && p.state == 3 && !p.isValid && 0 < |parts| <= |layout|
      && text == left + CrlfDashBoundary(c.boundary) + AfterWith(c.boundary, layout, parts[1..])
      && FindFrom(left, CrlfDashBoundary(c.boundary), 0).None?
      && got + left == parts[0].content
      && Delivered(p.events) == done + [Part(parts[0].info, got)]
      && done + parts == total
    case AtBoundary(parts) =>
      && p.state == 4 && !p.isValid && |parts| <= |layout|
      && text == AfterWith(c.boundary, layout, parts)
      && Delivered(p.events) + parts == total
    case Done =>
      && p.isValid && Delivered(p.events) == total
      && ((p.state == 4 && (text == CRLF || text == "\n" || text == "")) || (p.state == 1 && text == ""))
  }

  lemma DelimitersUnbordered(boundary: string)
    requires ValidBoundary(boundary)
    ensures Unbordered(CrlfDashBoundary(boundary)) && Unbordered(CRLF)
  {
  }

  // ---- One state at a time ----

  /** A header line, or the empty line, that has not arrived completely. */
  lemma LineMissing(c: Setup, p: Parser, line: string, more: string, rest: string)
    requires p.state == 2 && p.buf + rest == line + CRLF + more
    requires |line| < HEADER_MAX_LENGTH && FindFrom(line, CRLF, 0).None?
    requires |p.buf| < |line| + 2
    ensures DrainHeaders(c, p) == (p, true) && rest != ""
    ensures Index(p.buf, CRLF) <= HEADER_MAX_LENGTH
  {
    FirstDelimiter(line, CRLF, more, p.buf);
    assert |p.buf| + |rest| == |line| + 2 + |more|;
  }

  lemma LineRead(c: Setup, p: Parser, line: string, more: string, rest: string)
    requires p.state == 2 && p.buf + rest == line + CRLF + more
    requires GoodLine(line) && c.readHeader(p.file, line).1
    requires |line| + 2 <= |p.buf|
    ensures DrainHeaders(c, p)
         == DrainHeaders(c, p.(file := c.readHeader(p.file, line).0, buf := p.buf[|line| + 2..]))
    ensures p.buf[|line| + 2..] + rest == more
    ensures Index(p.buf, CRLF) == |line|
  {
    FirstDelimiter(line, CRLF, more, p.buf);
    assert p.buf[..|line|] == (p.buf + rest)[..|line|] == line;
    assert p.buf[|line| + 2..] + rest == (p.buf + rest)[|line| + 2..] == more;
  }

  lemma BlankRead(c: Setup, p: Parser, more: string, rest: string)
    requires p.state == 2 && p.buf + rest == CRLF + more && |p.buf| >= 2
    requires forall es :: c.answer(es)
    ensures DrainHeaders(c, p)
         == (p.(events := p.events + [PartBegins(p.file)], buf := p.buf[2..], state := 3), true)
    ensures p.buf[2..] + rest == more
    ensures Index(p.buf, CRLF) == 0
  {
    assert "" + CRLF + more == CRLF + more;
    FirstDelimiter("", CRLF, more, p.buf);
    assert p.buf[2..] + rest == (p.buf + rest)[2..] == more;
  }

  lemma HeaderStep(c: Setup, layout: Layout, w: Where, p: Parser, rest: string, total: seq<Part>)
    returns (w': Where)
    requires forall es :: c.answer(es)
    requires Written(c, layout, total)
    requires w.AtLines? && Rel(c, layout, w, p, rest, total)
    ensures DrainHeaders(c, p).1 && Index(p.buf, CRLF) <= HEADER_MAX_LENGTH
    ensures Rel(c, layout, w', DrainHeaders(c, p).0, rest, total)
    ensures if DrainHeaders(c, p).0.state == 3 then w'.AtBody? else w'.AtLines? && rest != ""
    decreases |w.lines|
  {
    var body := BodyWith(c.boundary, layout, w.parts);
    if w.lines == [] {
      assert p.buf + rest == CRLF + body == "" + CRLF + body;
      if |p.buf| < 2 {
        LineMissing(c, p, "", body, rest);
        w' := w;
      } else {
        BlankRead(c, p, body, rest);
        DeliveredBegins(p.events, p.file);
        assert w.parts[0] == total[|Delivered(p.events)|] && w.parts[0] in total;
        w' := AtBody(Delivered(p.events), "", w.parts[0].content, w.parts);
      }
    } else {
      var line := w.lines[0];
      var more := LinesText(w.lines[1..]) + CRLF + body;
      assert p.buf + rest == line + CRLF + more;
      assert GoodLine(line);
      if |p.buf| < |line| + 2 {
        LineMissing(c, p, line, more, rest);
        w' := w;
      } else {
        LineRead(c, p, line, more, rest);
        var next := p.(file := c.readHeader(p.file, line).0, buf := p.buf[|line| + 2..]);
        w' := HeaderStep(c, layout, AtLines(w.lines[1..], w.parts), next, rest, total);
      }
    }
  }

  /** Consuming `n` buffered characters consumes them from the text. */
  lemma Consume(p: Parser, rest: string, head: string, tail: string)
    requires p.buf + rest == head + tail && |head| <= |p.buf|
    ensures p.buf[..|head|] == head && head <= p.buf
    ensures p.buf[|head|..] + rest == tail
  {
    assert p.buf[..|head|] == (p.buf + rest)[..|head|];
    assert p.buf[|head|..] + rest == (p.buf + rest)[|head|..];
  }

  /** Before the end of the text there is always something left to read. */
  lemma TextRemains(c: Setup, layout: Layout, w: Where, p: Parser, rest: string, total: seq<Part>)
    requires Rel(c, layout, w, p, rest, total) && !w.Done?
    ensures |p.buf| + |rest| >= 2
    ensures w.AtBody? ==> |p.buf| + |rest| >= |w.left| + |CrlfDashBoundary(c.boundary)|
  {
    var text := p.buf + rest;
    assert |text| == |p.buf| + |rest|;
  }

  lemma PrefixOf(s: string, a: string, b: string)
    requires |a| + |b| <= |s| && s[..|a + b|] == a + b
    ensures s[..|a|] == a
  {
    assert s[..|a|] == s[..|a + b|][..|a|];
  }

  lemma StartStep(c: Setup, layout: Layout, p: Parser, rest: string, total: seq<Part>)
    returns (w': Where, q: Parser)
    requires Rel(c, layout, AtStart, p, rest, total) && p.buf != ""
    ensures q.state == 1 && |q.buf| < |p.buf| && Drain(c, p) == Drain(c, q)
    ensures w'.AtPart? && Rel(c, layout, w', q, rest, total)
  {
    var opening := DashBoundaryCrlf(c.boundary);
    Consume(p, rest, opening, PartsWith(c.boundary, layout, total));
    assert OccursAt(p.buf, opening, 0);
    assert p.buf[0..] == p.buf;
    w', q := AtPart(total), p.(buf := p.buf[|opening|..], state := 1);
  }

  lemma PartStep(c: Setup, layout: Layout, w: Where, p: Parser, rest: string, total: seq<Part>)
    returns (w': Where, q: Parser)
    requires Written(c, layout, total)
    requires w.AtPart? && Rel(c, layout, w, p, rest, total) && p.buf != ""
    ensures q.state == 2 && q.buf == p.buf && Drain(c, p) == Drain(c, q)
    ensures w'.AtLines? && Rel(c, layout, w', q, rest, total)
  {
    assert w.parts[0] == total[|Delivered(p.events)|] && w.parts[0] in total;
    w', q := AtLines(LinesFor(layout, w.parts), w.parts), p.(file := NO_FILE, state := 2);
  }

  /** Where `FirstDelimiter` puts the delimiter after the content left to read. */
  lemma FindBodyEnd(c: Setup, layout: Layout, w: Where, p: Parser, rest: string, total: seq<Part>)
    requires ValidBoundary(c.boundary) && w.AtBody? && Rel(c, layout, w, p, rest, total)
    ensures var delimiter := CrlfDashBoundary(c.boundary);
            Index(p.buf, delimiter) == if |w.left| + |delimiter| <= |p.buf| then |w.left| else |p.buf|
  {
    DelimitersUnbordered(c.boundary);
    FirstDelimiter(w.left, CrlfDashBoundary(c.boundary), AfterWith(c.boundary, layout, w.parts[1..]), p.buf);
  }

  /** One step of the loop over content, with the delimiter in the buffer. */
  lemma DrainDelimiter(c: Setup, p: Parser, n: nat, delimiter: string)
    requires p.state == 3 && delimiter == CrlfDashBoundary(c.boundary) && forall es :: c.answer(es)
    requires Index(p.buf, delimiter) == n && n + |delimiter| <= |p.buf| && delimiter != ""
    ensures Drain(c, p)
              == Drain(c, p.(events := p.events + [Content(p.buf[..n])], buf := p.buf[n + |delimiter|..], state := 4))
  {
  }

  /** Without the delimiter all but its length is handed out. */
  lemma DrainContent(c: Setup, p: Parser, delimiter: string)
    requires p.state == 3 && delimiter == CrlfDashBoundary(c.boundary) && forall es :: c.answer(es)
    requires Index(p.buf, delimiter) == |p.buf| && p.buf != ""
    ensures Drain(c, p) ==
            if |p.buf| <= |delimiter| then (p, true)
            else
              var len := |p.buf| - |delimiter|;
              (p.(events := p.events + [Content(p.buf[..len])], buf := p.buf[len..]), true)
  {
  }

  /** The delimiter is in the buffer: the content before it completes the part. */
  lemma BodyEnds(c: Setup, layout: Layout, w: Where, p: Parser, rest: string, total: seq<Part>)
    returns (w': Where, q: Parser)
    requires ValidBoundary(c.boundary) && forall es :: c.answer(es)
    requires w.AtBody? && Rel(c, layout, w, p, rest, total)
    requires |w.left| + |CrlfDashBoundary(c.boundary)| <= |p.buf|
    ensures q.state == 4 && |q.buf| < |p.buf| && Drain(c, p) == Drain(c, q)
    ensures w'.AtBoundary? && Rel(c, layout, w', q, rest, total)
  {
    var delimiter := CrlfDashBoundary(c.boundary);
    FindBodyEnd(c, layout, w, p, rest, total);
    DrainDelimiter(c, p, |w.left|, delimiter);
    w', q := ContentCompleted(c, layout, w, p, rest, total, delimiter);
  }

  lemma ContentCompleted(c: Setup, layout: Layout, w: Where, p: Parser, rest: string, total: seq<Part>,
                         delimiter: string)
    returns (w': Where, q: Parser)
    requires w.AtBody? && Rel(c, layout, w, p, rest, total) && delimiter == CrlfDashBoundary(c.boundary)
    requires |w.left| + |delimiter| <= |p.buf|
    ensures q == p.(events := p.events + [Content(p.buf[..|w.left|])],
                    buf := p.buf[|w.left| + |delimiter|..], state := 4)
    ensures w'.AtBoundary? && Rel(c, layout, w', q, rest, total)
  {
    Consume(p, rest, w.left + delimiter, AfterWith(c.boundary, layout, w.parts[1..]));
    PrefixOf(p.buf, w.left, delimiter);
    q := p.(events := p.events + [Content(p.buf[..|w.left|])], buf := p.buf[|w.left| + |delimiter|..], state := 4);
    w' := AtBoundary(w.parts[1..]);
    PartCompleted(p.events, w.done, w.parts, w.got, w.left);
  }

  lemma PartCompleted(events: seq<Event>, done: seq<Part>, parts: seq<Part>, got: string, left: string)
    requires parts != [] && got + left == parts[0].content
    requires Delivered(events) == done + [Part(parts[0].info, got)]
    ensures Delivered(events + [Content(left)]) + parts[1..] == done + parts
  {
    DeliveredContent(events, done, Part(parts[0].info, got), left);
    assert done + [parts[0]] + parts[1..] == done + parts;
  }

  /** No delimiter yet: all but its length is content for certain. */
  lemma BodyGoesOn(c: Setup, layout: Layout, w: Where, p: Parser, rest: string, total: seq<Part>)
    returns (w': Where)
    requires ValidBoundary(c.boundary) && forall es :: c.answer(es)
    requires w.AtBody? && Rel(c, layout, w, p, rest, total) && p.buf != ""
    requires |p.buf| < |w.left| + |CrlfDashBoundary(c.boundary)|
    ensures Drain(c, p).1 && w'.AtBody? && Rel(c, layout, w', Drain(c, p).0, rest, total) && rest != ""
  {
    TextRemains(c, layout, w, p, rest, total);
    FindBodyEnd(c, layout, w, p, rest, total);
    var delimiter := CrlfDashBoundary(c.boundary);
    DrainContent(c, p, delimiter);
    if |p.buf| <= |delimiter| {
      w' := w;
    } else {
      w' := ContentHandedOut(c, layout, w, p, rest, total, delimiter, |p.buf| - |delimiter|);
    }
  }

  lemma ContentHandedOut(c: Setup, layout: Layout, w: Where, p: Parser, rest: string, total: seq<Part>,
                         delimiter: string, len: nat)
    returns (w': Where)
    requires w.AtBody? && Rel(c, layout, w, p, rest, total) && delimiter == CrlfDashBoundary(c.boundary)
    requires len <= |p.buf| && len <= |w.left|
    ensures w'.AtBody?
    ensures Rel(c, layout, w', p.(events := p.events + [Content(p.buf[..len])], buf := p.buf[len..]), rest, total)
  {
    var after := AfterWith(c.boundary, layout, w.parts[1..]);
    SplitContent(w.left, len, delimiter, after);
    Consume(p, rest, w.left[..len], w.left[len..] + delimiter + after);
    SuffixFree(w.left, delimiter, len);
    DeliveredContent(p.events, w.done, Part(w.parts[0].info, w.got), p.buf[..len]);
    w' := AtBody(w.done, w.got + w.left[..len], w.left[len..], w.parts);
    assert w'.got + w'.left == w.got + w.left;
  }

  lemma SplitContent(left: string, len: nat, delimiter: string, after: string)
    requires len <= |left|
    ensures left + delimiter + after == left[..len] + (left[len..] + delimiter + after)
    ensures left == left[..len] + left[len..]
  {
  }

  lemma NextPart(c: Setup, layout: Layout, w: Where, p: Parser, rest: string, total: seq<Part>)
    returns (w': Where, q: Parser)
    requires w.AtBoundary? && w.parts != [] && Rel(c, layout, w, p, rest, total) && |p.buf| >= 2
    ensures q.state == 1 && |q.buf| < |p.buf| - 1 && Drain(c, p) == Drain(c, q)
    ensures w'.AtPart? && Rel(c, layout, w', q, rest, total)
  {
    Consume(p, rest, CRLF, PartsWith(c.boundary, layout, w.parts));
    w', q := AtPart(w.parts), p.(buf := p.buf[2..], state := 1);
  }

  lemma ClosingDelimiter(c: Setup, layout: Layout, p: Parser, rest: string, total: seq<Part>)
    requires Rel(c, layout, AtBoundary([]), p, rest, total) && |p.buf| >= 2
    ensures Drain(c, p).1 && Rel(c, layout, Done, Drain(c, p).0, rest, total)
  {
    assert p.buf + rest == "--" + CRLF;
    Consume(p, rest, "--", CRLF);
    assert p.buf[0] == '-';
    assert rest == (p.buf + rest)[|p.buf|..];
    assert ("--" + CRLF)[2..] == CRLF && ("--" + CRLF)[3..] == "\n" && ("--" + CRLF)[4..] == "";
    assert Drain(c, p) == (p.(buf := "", isValid := true), true);
    assert "" + rest == rest && Delivered(p.events) + [] == Delivered(p.events) == total;
  }

  /** After the closing delimiter nothing can undo the result. */
  lemma DoneStep(c: Setup, layout: Layout, p: Parser, rest: string, total: seq<Part>)
    requires Rel(c, layout, Done, p, rest, total)
    ensures Drain(c, p).1 && Rel(c, layout, Done, Drain(c, p).0, rest, total)
  {
    var text := p.buf + rest;
    if p.buf != "" {
      assert p.buf == text[..|p.buf|];
      if |p.buf| == 2 {
        assert p.buf == text == CRLF && rest == "";
        assert Drain(c, p) == Drain(c, p.(buf := "", state := 1));
      }
    }
  }

  /** One call of the main loop keeps the parser and the text in step, never gives up, and with
      nothing left to come reaches the end. */
  lemma {:induction false} Advance(c: Setup, layout: Layout, w: Where, p: Parser, rest: string, total: seq<Part>)
    returns (w': Where)
    requires ValidBoundary(c.boundary) && forall es :: c.answer(es)
    requires Written(c, layout, total)
    requires Rel(c, layout, w, p, rest, total)
    ensures Drain(c, p).1 && Rel(c, layout, w', Drain(c, p).0, rest, total)
    ensures w'.AtStart? ==> p.buf == ""
    ensures rest == "" ==> w'.Done?
    decreases 2 * |p.buf| + if p.state == 1 then 1 else 0
  {
    w' := w;
    var q := p;
    if !w.Done? {
      TextRemains(c, layout, w, p, rest, total);
    }
    if p.buf != "" {
      match w
      case Done =>
        DoneStep(c, layout, p, rest, total);
      case AtStart =>
        w', q := StartStep(c, layout, p, rest, total);
        w' := Advance(c, layout, w', q, rest, total);
      case AtPart(_) =>
        w', q := PartStep(c, layout, w, p, rest, total);
        w' := Advance(c, layout, w', q, rest, total);
      case AtLines(_, _) =>
        w' := HeaderStep(c, layout, w, p, rest, total);
        if DrainHeaders(c, p).0.state == 3 {
          w' := Advance(c, layout, w', DrainHeaders(c, p).0, rest, total);
        }
      case AtBody(_, _, left, _) =>
        if |left| + |CrlfDashBoundary(c.boundary)| <= |p.buf| {
          w', q := BodyEnds(c, layout, w, p, rest, total);
          w' := Advance(c, layout, w', q, rest, total);
        } else {
          w' := BodyGoesOn(c, layout, w, p, rest, total);
        }
      case AtBoundary(parts) =>
        if |p.buf| >= 2 {
          if parts == [] {
            ClosingDelimiter(c, layout, p, rest, total);
            w' := Done;
          } else {
            w', q := NextPart(c, layout, w, p, rest, total);
            w' := Advance(c, layout, w', q, rest, total);
          }
        }
    }
  }

  // ---- Whole runs ----

  /** The first chunk that is not empty holds the whole opening delimiter line. */
  predicate OpeningArrivesWhole(boundary: string, chunks: seq<string>) {
    chunks != [] &&
    if chunks[0] == "" then OpeningArrivesWhole(boundary, chunks[1..])
    else |DashBoundaryCrlf(boundary)| <= |chunks[0]|
  }

  lemma {:induction false} FeedInStep(c: Setup, layout: Layout, w: Where, p: Parser, chunks: seq<string>,
                                      total: seq<Part>)
    requires ValidBoundary(c.boundary) && forall es :: c.answer(es)
    requires Written(c, layout, total)
    requires Rel(c, layout, w, p, Concat(chunks), total)
    requires w.AtStart? ==> p.buf == "" && OpeningArrivesWhole(c.boundary, chunks)
    requires chunks == [] ==> w.Done?
    ensures FeedAll(c, p, chunks).1
    ensures FeedAll(c, p, chunks).0.isValid && Delivered(FeedAll(c, p, chunks).0.events) == total
    decreases |chunks|
  {
    if chunks != [] {
      var rest := Concat(chunks[1..]);
      var fed := p.(buf := p.buf + chunks[0]);
      assert fed.buf + rest == p.buf + Concat(chunks);
      assert chunks[0] == "" ==> fed.buf == p.buf;
      var w' := Advance(c, layout, w, fed, rest, total);
      FeedInStep(c, layout, w', Feed(c, p, chunks[0]).0, chunks[1..], total);
    }
  }

  // ---- Forms with any header lines ----

  /** A form whose parts have these header lines. */
  function SerializeWith(boundary: string, layout: Layout, parts: seq<Part>): string
    requires |parts| <= |layout|
    decreases |parts|
  {
    if parts == [] then "--" + boundary + "--" + CRLF
    else
      DashBoundaryCrlf(boundary) + LinesText(LinesFor(layout, parts)) + CRLF + parts[0].content + CRLF
      + SerializeWith(boundary, layout, parts[1..])
  }

  lemma Regroup(open: string, lines: string, content: string, tail: string)
    ensures open + lines + CRLF + content + CRLF + tail == open + (lines + CRLF + (content + (CRLF + tail)))
  {
  }

  lemma TailWith(boundary: string, layout: Layout, parts: seq<Part>)
    requires |parts| <= |layout|
    ensures CRLF + SerializeWith(boundary, layout, parts)
         == CrlfDashBoundary(boundary) + AfterWith(boundary, layout, parts)
    decreases |parts|, 1
  {
    if parts != [] {
      ShapeWith(boundary, layout, parts);
      assert CRLF + DashBoundaryCrlf(boundary) == CrlfDashBoundary(boundary) + CRLF;
      var text := PartsWith(boundary, layout, parts);
      Assoc(CRLF, DashBoundaryCrlf(boundary), text);
      Assoc(CrlfDashBoundary(boundary), CRLF, text);
    } else {
      ClosingWith(boundary, layout);
    }
  }

  lemma ClosingWith(boundary: string, layout: Layout)
    ensures CRLF + SerializeWith(boundary, layout, []) == CrlfDashBoundary(boundary) + AfterWith(boundary, layout, [])
  {
  }

  /** The text is an opening delimiter line followed by the parts. */
  lemma {:induction false} ShapeWith(boundary: string, layout: Layout, parts: seq<Part>)
    requires 0 < |parts| <= |layout|
    ensures SerializeWith(boundary, layout, parts) == DashBoundaryCrlf(boundary) + PartsWith(boundary, layout, parts)
    decreases |parts|, 0
  {
    var rest := parts[1..];
    TailWith(boundary, layout, rest);
    var lines, content := LinesText(LinesFor(layout, parts)), parts[0].content;
    Regroup(DashBoundaryCrlf(boundary), lines, content, SerializeWith(boundary, layout, rest));
    assert BodyWith(boundary, layout, parts) == content + (CRLF + SerializeWith(boundary, layout, rest));
  }

  /** Round trip: whatever the chunks, as long as the opening delimiter line is not cut, and whatever lines
      describe the parts, the parser accepts every chunk, ends valid, and delivers exactly the parts. */
  lemma ParseInvertsWith(c: Setup, layout: Layout, parts: seq<Part>, chunks: seq<string>)
    requires ValidBoundary(c.boundary) && (forall es :: c.answer(es)) && parts != []
    requires Written(c, layout, parts)
    requires Concat(chunks) == SerializeWith(c.boundary, layout, parts)
    requires OpeningArrivesWhole(c.boundary, chunks)
    ensures FeedAll(c, INITIAL, chunks).1
    ensures FeedAll(c, INITIAL, chunks).0.isValid
    ensures Delivered(FeedAll(c, INITIAL, chunks).0.events) == parts
  {
    ShapeWith(c.boundary, layout, parts);
    assert INITIAL.buf + Concat(chunks) == Concat(chunks);
    FeedInStep(c, layout, AtStart, INITIAL, chunks, parts);
  }
}
