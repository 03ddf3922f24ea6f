/** A multipart parser that misses the opening delimiter line never delivers all the parts, whatever the
    parts contain and wherever it begins to read instead. */
module MultipartLost {
  import opened Options
  import opened Text
  import opened Multipart
  import opened MultipartLayout
  import opened MultipartProof

  // ---- One step of the main loop ----

  function Read(c: Setup, p: Parser, pos: nat): (FileInfo, bool)
    requires pos <= |p.buf|
  {
    c.readHeader(p.file, p.buf[..pos])
  }

  /** What one turn in the header state does. */
  ghost predicate HeaderTurn(c: Setup, p: Parser, q: Parser) {
    p.state == 2 &&
    var pos := Index(p.buf, CRLF);
    && pos < |p.buf| && OccursAt(p.buf, CRLF, pos)
    && if pos == 0 then q == p.(events := p.events + [PartBegins(p.file)], buf := p.buf[2..], state := 3)
       else if Read(c, p, pos).1 then q == p.(file := Read(c, p, pos).0, buf := p.buf[pos + 2..])
       else q == p.(file := Read(c, p, pos).0, isValid := false)
  }

  /** What one turn in the body state does. */
  ghost predicate BodyTurn(c: Setup, p: Parser, q: Parser) {
    p.state == 3 &&
    var d := CrlfDashBoundary(c.boundary);
    var pos := Index(p.buf, d);
    && |d| <= |p.buf|
    && if pos < |p.buf| then
         OccursAt(p.buf, d, pos) &&
         q == p.(events := p.events + [Content(p.buf[..pos])], buf := p.buf[pos + |d|..], state := 4)
       else
         var len := |p.buf| - |d|;
         len > 0 && q == p.(events := p.events + [Content(p.buf[..len])], buf := p.buf[len..])
  }

  ghost predicate BoundaryTurn(p: Parser, q: Parser) {
    p.state == 4 && |p.buf| >= 2 &&
    if CRLF <= p.buf then q == p.(buf := p.buf[2..], state := 1)
    else "--" <= p.buf && q == p.(buf := "", isValid := true)
  }

  /** A turn of the main loop, behind the opening delimiter line. */
  ghost predicate Turn(c: Setup, p: Parser, q: Parser) {
    || (p.state == 1 && q == p.(file := NO_FILE, state := 2))
    || HeaderTurn(c, p, q)
    || BodyTurn(c, p, q)
    || BoundaryTurn(p, q)
  }

  lemma {:induction false} HeaderTurns(c: Setup, p: Parser, inv: Parser -> bool)
    requires p.state == 2 && inv(p) && forall es :: c.answer(es)
    requires forall q, q' :: inv(q) && Turn(c, q, q') ==> inv(q')
    ensures inv(DrainHeaders(c, p).0)
    decreases |p.buf|
  {
    var pos := Index(p.buf, CRLF);
    if pos < |p.buf| {
      if pos == 0 {
        assert Turn(c, p, p.(events := p.events + [PartBegins(p.file)], buf := p.buf[2..], state := 3));
      } else if Read(c, p, pos).1 {
        var q := p.(file := Read(c, p, pos).0, buf := p.buf[pos + 2..]);
        assert Turn(c, p, q);
        HeaderTurns(c, q, inv);
      } else {
        assert Turn(c, p, p.(file := Read(c, p, pos).0, isValid := false));
      }
    }
  }

  /** The turn that `parse` takes in the body state, if it takes one. */
  lemma BodyTurnOf(c: Setup, p: Parser) returns (q: Parser, moved: bool)
    requires p.state == 3 && p.buf != "" && forall es :: c.answer(es)
    ensures moved ==> BodyTurn(c, p, q)
    ensures moved && q.state == 4 ==> Drain(c, p) == Drain(c, q) && |q.buf| < |p.buf|
    ensures moved && q.state != 4 ==>
              Drain(c, p) == (q, true) && q.state == 3 && |q.buf| == |CrlfDashBoundary(c.boundary)|
    ensures !moved ==> Drain(c, p) == (p, true) && |p.buf| <= |CrlfDashBoundary(c.boundary)|
  {
    var d := CrlfDashBoundary(c.boundary);
    var pos := Index(p.buf, d);
    q, moved := p, false;
    if |d| <= |p.buf| {
      if pos < |p.buf| {
        q, moved := p.(events := p.events + [Content(p.buf[..pos])], buf := p.buf[pos + |d|..], state := 4), true;
      } else if |d| < |p.buf| {
        var len := |p.buf| - |d|;
        q, moved := p.(events := p.events + [Content(p.buf[..len])], buf := p.buf[len..]), true;
      }
    }
  }

  lemma BoundaryTurnOf(c: Setup, p: Parser) returns (q: Parser, moved: bool)
    requires p.state == 4 && p.buf != ""
    ensures moved ==> BoundaryTurn(p, q)
    ensures moved && q.state == 1 ==> Drain(c, p) == Drain(c, q) && |q.buf| < |p.buf| - 1
    ensures moved && q.state != 1 ==> Drain(c, p) == (q, true) && q.state == 4
    ensures !moved ==> Drain(c, p) == (p, true)
  {
    q, moved := p, false;
    if |p.buf| >= 2 {
      if CRLF <= p.buf {
        q, moved := p.(buf := p.buf[2..], state := 1), true;
      } else if "--" <= p.buf {
        q, moved := p.(buf := "", isValid := true), true;
      }
    }
  }

  lemma HeadersDrain(c: Setup, p: Parser)
    requires p.state == 2 && p.buf != ""
    ensures var (q, ok) := DrainHeaders(c, p);
            Drain(c, p) == if Index(p.buf, CRLF) > Fields.HEADER_MAX_LENGTH then (p, false)
                           else if ok && q.state == 3 then Drain(c, q) else (q, ok)
  {
  }

  lemma {:induction false} HeadersFail(c: Setup, p: Parser)
    requires p.state == 2 && forall es :: c.answer(es)
    ensures !DrainHeaders(c, p).1 ==> DrainHeaders(c, p).0.state == 2
    decreases |p.buf|
  {
    var pos := Index(p.buf, CRLF);
    if 0 < pos < |p.buf| && Read(c, p, pos).1 {
      HeadersFail(c, p.(file := Read(c, p, pos).0, buf := p.buf[pos + 2..]));
    }
  }

  /** What every turn keeps, one call of `parse` keeps. */
  lemma {:induction false} DrainTurns(c: Setup, p: Parser, inv: Parser -> bool)
    requires 1 <= p.state <= 4 && inv(p) && forall es :: c.answer(es)
    requires forall q, q' :: inv(q) && Turn(c, q, q') ==> inv(q')
    ensures inv(Drain(c, p).0) && Drain(c, p).0.state >= 1
    ensures Drain(c, p).0.state == 3 ==> |Drain(c, p).0.buf| <= |CrlfDashBoundary(c.boundary)|
    ensures !Drain(c, p).1 ==> Drain(c, p).0.state == 2
    decreases 2 * |p.buf| + if p.state == 1 then 1 else 0
  {
    if p.buf != "" {
      if p.state == 1 {
        var q := p.(file := NO_FILE, state := 2);
        assert Turn(c, p, q) && Drain(c, p) == Drain(c, q);
        DrainTurns(c, q, inv);
      } else if p.state == 2 {
        HeaderTurns(c, p, inv);
        HeadersFail(c, p);
        HeadersDrain(c, p);
        var (q, ok) := DrainHeaders(c, p);
        if ok && q.state == 3 {
          DrainTurns(c, q, inv);
        }
      } else if p.state == 3 {
        var q, moved := BodyTurnOf(c, p);
        if moved {
          assert Turn(c, p, q);
          if q.state == 4 {
            DrainTurns(c, q, inv);
          }
        }
      } else {
        var q, moved := BoundaryTurnOf(c, p);
        if moved {
          assert Turn(c, p, q);
          if q.state == 1 {
            DrainTurns(c, q, inv);
          }
        }
      }
    }
  }

  // ---- Deliveries that can no longer be right ----

  /** Too many parts, a part with another description, or one that is complete and different. While
      `open`, the last part may still grow. */
  ghost predicate Wrong(parts: seq<Part>, events: seq<Event>, open: bool) {
    var d := Delivered(events);
    || |d| > |parts|
    || exists i :: 0 <= i < |d| && i < |parts| && WrongAt(parts, d, i, open)
  }

  ghost predicate WrongAt(parts: seq<Part>, d: seq<Part>, i: nat, open: bool)
    requires i < |d| && i < |parts|
  {
    d[i].info != parts[i].info || ((i < |d| - 1 || !open) && d[i] != parts[i])
  }

  lemma WrongIsNotRight(parts: seq<Part>, events: seq<Event>, open: bool)
    requires Wrong(parts, events, open)
    ensures Delivered(events) != parts
  {
  }

  lemma WrongContent(parts: seq<Part>, events: seq<Event>, data: string, open: bool)
    requires Wrong(parts, events, true)
    ensures Wrong(parts, events + [Content(data)], open)
  {
    var d := Delivered(events);
    var done, last := d[..|d| - 1], d[|d| - 1];
    assert d == done + [last];
    DeliveredContent(events, done, last, data);
    var e := Delivered(events + [Content(data)]);
    if |d| <= |parts| {
      var i :| 0 <= i < |d| && i < |parts| && WrongAt(parts, d, i, true);
      assert WrongAt(parts, e, i, open);
    }
  }

  lemma WrongBegins(parts: seq<Part>, events: seq<Event>, info: FileInfo)
    requires Wrong(parts, events, false)
    ensures Wrong(parts, events + [PartBegins(info)], true)
  {
    var d := Delivered(events);
    DeliveredBegins(events, info);
    if |d| <= |parts| {
      var i :| 0 <= i < |d| && i < |parts| && WrongAt(parts, d, i, false);
      assert WrongAt(parts, d + [Part(info, "")], i, true);
    }
  }

  lemma WrongTurn(c: Setup, parts: seq<Part>, p: Parser, q: Parser)
    requires Turn(c, p, q) && Wrong(parts, p.events, p.state == 3)
    ensures Wrong(parts, q.events, q.state == 3)
  {
    if HeaderTurn(c, p, q) && q.state == 3 {
      WrongBegins(parts, p.events, p.file);
    } else if BodyTurn(c, p, q) {
      WrongContent(parts, p.events, q.events[|p.events|].data, q.state == 3);
      assert q.events == p.events + [Content(q.events[|p.events|].data)];
    }
  }

  // ---- Places in the serialized text ----

  /** Where part `i` starts, with its opening delimiter line. */
  function Offset(boundary: string, parts: seq<Part>, i: nat): int
    requires i <= |parts|
  {
    |Serialize(parts, boundary)| - |Serialize(parts[i..], boundary)|
  }

  /** Where its content starts. */
  function ContentStart(boundary: string, parts: seq<Part>, i: nat): int
    requires i < |parts|
  {
    Offset(boundary, parts, i) + |DashBoundaryCrlf(boundary)| + |LinesText(HeaderLines(parts[i].info))| + 2
  }

  /** Where its content ends, and the next delimiter starts. */
  function ContentEnd(boundary: string, parts: seq<Part>, i: nat): int
    requires i < |parts|
  {
    ContentStart(boundary, parts, i) + |parts[i].content|
  }

  predicate IsSuffix(s: string, t: string) { |s| <= |t| && t[|t| - |s|..] == s }

  lemma SuffixBehind(s: string, front: string, more: string)
    requires IsSuffix(s, more)
    ensures IsSuffix(s, front + more)
  {
  }

  lemma {:induction false} SuffixFrom(boundary: string, parts: seq<Part>, i: nat)
    requires i <= |parts|
    ensures IsSuffix(Serialize(parts[i..], boundary), Serialize(parts, boundary))
  {
    if i == 0 {
      assert parts[0..] == parts;
    } else {
      SerializeBlocks(boundary, parts);
      SuffixFrom(boundary, parts[1..], i - 1);
      assert parts[1..][i - 1..] == parts[i..];
      var front, more := DashBoundaryCrlf(boundary) + Block(parts[0]), Serialize(parts[1..], boundary);
      SuffixBehind(Serialize(parts[i..], boundary), front, more);
    }
  }

  lemma TextFrom(boundary: string, parts: seq<Part>, i: nat)
    requires i <= |parts|
    ensures 0 <= Offset(boundary, parts, i) <= |Serialize(parts, boundary)|
    ensures Serialize(parts, boundary)[Offset(boundary, parts, i)..] == Serialize(parts[i..], boundary)
  {
    SuffixFrom(boundary, parts, i);
  }

  /** The text from part `i` on, piece by piece. */
  lemma PartText(boundary: string, parts: seq<Part>, i: nat)
    requires i < |parts|
    ensures Serialize(parts[i..], boundary)
         == DashBoundaryCrlf(boundary) + Block(parts[i]) + Serialize(parts[i + 1..], boundary)
    ensures Offset(boundary, parts, i + 1) == ContentEnd(boundary, parts, i) + 2
  {
    SerializeBlocks(boundary, parts[i..]);
    assert parts[i..][1..] == parts[i + 1..] && parts[i..][0] == parts[i];
  }

  // ---- Delimiters between the parts ----

  const CRLF_DASH: string := "\r\n-"

  /** Header lines and the empty line behind them, with the CRLF in front. */
  function HeaderText(lines: seq<string>): string { CRLF + LinesText(lines) + CRLF }

  /** A header line as the serializer prints them. */
  predicate PlainLine(line: string) { GoodLine(line) && line[0] != '-' }

  lemma CrlfAt(s: string, p: string, x: nat)
    requires OccursAt(s, p, x) && CRLF_DASH <= p
    ensures s[x] == '\r' && s[x + 1] == '\n' && s[x + 2] == '-'
  {
    assert s[x..x + |p|][0] == s[x] && s[x..x + |p|][1] == s[x + 1] && s[x..x + |p|][2] == s[x + 2];
    assert p[..3] == CRLF_DASH;
  }

  /** A line without a CRLF has no carriage return in front of a line feed. */
  lemma InsideLine(line: string, y: nat)
    requires FindFrom(line, CRLF, 0).None? && y + 1 < |line|
    ensures !(line[y] == '\r' && line[y + 1] == '\n')
  {
    if line[y] == '\r' && line[y + 1] == '\n' {
      assert line[y..y + 2] == CRLF;
      assert OccursAt(line, CRLF, y);
    }
  }

  lemma HeaderTextStep(line: string, more: seq<string>)
    ensures HeaderText([line] + more) == CRLF + line + HeaderText(more)
  {
    assert ([line] + more)[1..] == more;
  }

  /** No line of a header starts with a dash. */
  lemma {:induction false} NoDashLine(lines: seq<string>, x: nat)
    requires forall line :: line in lines ==> PlainLine(line)
    ensures !OccursAt(HeaderText(lines), CRLF_DASH, x)
    decreases |lines|
  {
    var text := HeaderText(lines);
    if OccursAt(text, CRLF_DASH, x) {
      CrlfAt(text, CRLF_DASH, x);
      if lines != [] {
        var line, more := lines[0], HeaderText(lines[1..]);
        assert lines == [line] + lines[1..];
        HeaderTextStep(line, lines[1..]);
        assert PlainLine(line);
        NotInFirstLine(line, more, x);
        OccursAfter(CRLF + line, more, CRLF_DASH, x);
        NoDashLine(lines[1..], x - 2 - |line|);
      }
    }
  }

  lemma NotInFirstLine(line: string, more: string, x: nat)
    requires PlainLine(line) && CRLF <= more && x + 3 <= 2 + |line| + |more|
    requires var text := CRLF + line + more; text[x] == '\r' && text[x + 1] == '\n' && text[x + 2] == '-'
    ensures x >= 2 + |line|
  {
    if 2 <= x < 2 + |line| - 1 {
      InsideLine(line, x - 2);
    }
  }

  /** From the end of a content to the start of the next, the delimiter is only at the start. */
  lemma GapClean(boundary: string, lines: seq<string>, x: nat)
    requires ValidBoundary(boundary) && x > 0 && forall line :: line in lines ==> PlainLine(line)
    ensures !OccursAt(CrlfDashBoundary(boundary) + HeaderText(lines), CRLF_DASH, x)
  {
    var d, header := CrlfDashBoundary(boundary), HeaderText(lines);
    if OccursAt(d + header, CRLF_DASH, x) {
      CrlfAt(d + header, CRLF_DASH, x);
      assert x >= |d|;
      OccursAfter(d, header, CRLF_DASH, x);
      NoDashLine(lines, x - |d|);
    }
  }

  lemma NoDelimiterInGap(boundary: string, lines: seq<string>, more: string, x: nat)
    requires ValidBoundary(boundary) && forall line :: line in lines ==> PlainLine(line)
    requires var gap := CrlfDashBoundary(boundary) + HeaderText(lines); 0 < x < |gap| - 2
    ensures !OccursAt(CrlfDashBoundary(boundary) + HeaderText(lines) + more, CrlfDashBoundary(boundary), x)
  {
    var d, gap := CrlfDashBoundary(boundary), CrlfDashBoundary(boundary) + HeaderText(lines);
    if OccursAt(gap + more, d, x) {
      assert d[..3] == CRLF_DASH;
      CrlfAt(gap + more, d, x);
      assert gap[x..x + 3] == CRLF_DASH;
      GapClean(boundary, lines, x);
    }
  }

  lemma NoDelimiterInTail(boundary: string, x: nat)
    requires ValidBoundary(boundary) && x > 0
    ensures !OccursAt(CrlfDashBoundary(boundary) + "--" + CRLF, CrlfDashBoundary(boundary), x)
  {
    var d := CrlfDashBoundary(boundary);
    var tail := d + "--" + CRLF;
    assert forall y :: 0 < y < |tail| - 2 ==> tail[y] != '\r';
    if OccursAt(tail, d, x) {
      assert d[..3] == CRLF_DASH;
      CrlfAt(tail, d, x);
    }
  }

  // ---- A map of the text ----

  /** The text, and where the content of each part starts. */
  datatype Places = Places(text: string, starts: seq<int>)

  function EndOf(parts: seq<Part>, m: Places, i: nat): int
    requires i < |parts| == |m.starts|
  {
    m.starts[i] + |parts[i].content|
  }

  /** Each content is followed by a delimiter, */
  ghost predicate MapsDelimiters(boundary: string, parts: seq<Part>, m: Places)
    requires |m.starts| == |parts|
  {
    forall i :: 0 <= i < |parts| ==> m.starts[i] >= 2 && DelimiterAt(boundary, parts, m, i)
  }

  /** the next one is not before the next content, */
  ghost predicate MapsGaps(boundary: string, parts: seq<Part>, m: Places)
    requires |m.starts| == |parts|
  {
    forall i, j :: 0 <= i < |parts| - 1 && InGap(parts, m, i, j) ==> !OccursAt(m.text, CrlfDashBoundary(boundary), j)
  }

  /** the text ends behind the last content, */
  ghost predicate MapsTail(boundary: string, parts: seq<Part>, m: Places, last: nat)
    requires last < |parts| == |m.starts|
  {
    var end := EndOf(parts, m, last);
    && 0 <= m.starts[last] <= end <= |m.text| && m.text[m.starts[last]..end] == parts[last].content
    && m.text[end..] == CrlfDashBoundary(boundary) + "--" + CRLF
  }

  /** and the first content is behind an empty line. */
  ghost predicate MapsStart(m: Places)
    requires m.starts != []
  {
    2 <= m.starts[0] <= |m.text| && m.text[m.starts[0] - 2..m.starts[0]] == CRLF
  }

  ghost predicate Mapped(boundary: string, parts: seq<Part>, m: Places) {
    && |m.starts| == |parts| && parts != []
    && MapsDelimiters(boundary, parts, m) && MapsGaps(boundary, parts, m)
    && MapsTail(boundary, parts, m, |parts| - 1) && MapsStart(m)
  }

  ghost predicate DelimiterAt(boundary: string, parts: seq<Part>, m: Places, i: nat)
    requires i < |parts| == |m.starts|
  {
    OccursAt(m.text, CrlfDashBoundary(boundary), EndOf(parts, m, i))
  }

  predicate InGap(parts: seq<Part>, m: Places, i: nat, j: int)
    requires i + 1 < |parts| == |m.starts|
  {
    EndOf(parts, m, i) < j < m.starts[i + 1] - 2
  }

  lemma CutFront(text: string, from: nat, front: string, more: string, cut: nat)
    requires from <= |text| && text[from..] == front + more && cut == from + |front|
    ensures cut <= |text| && text[cut..] == more
  {
    assert |text[from..]| == |front| + |more|;
    assert text[cut..] == text[from..][|front|..];
  }

  /** What follows a content. */
  lemma EndText(boundary: string, parts: seq<Part>, i: nat)
    requires i < |parts|
    ensures 0 <= ContentEnd(boundary, parts, i) <= |Serialize(parts, boundary)|
    ensures Serialize(parts, boundary)[ContentEnd(boundary, parts, i)..]
         == CrlfDashBoundary(boundary) + AfterBoundary(boundary, parts[i + 1..])
  {
    TextFrom(boundary, parts, i);
    PartText(boundary, parts, i);
    TailShape(boundary, parts[i + 1..]);
    var lines, content := LinesText(HeaderLines(parts[i].info)), parts[i].content;
    var front, more := DashBoundaryCrlf(boundary) + lines + CRLF + content, Serialize(parts[i + 1..], boundary);
    assert DashBoundaryCrlf(boundary) + Block(parts[i]) + more == front + (CRLF + more);
    CutFront(Serialize(parts, boundary), Offset(boundary, parts, i), front, CRLF + more,
                 ContentEnd(boundary, parts, i));
  }

  lemma BlockShape(open: string, lines: string, content: string, rest: string)
    ensures open + (lines + CRLF + content + CRLF) + rest == (open + lines) + (CRLF + (content + CRLF + rest))
    ensures open + (lines + CRLF + content + CRLF) + rest == (open + lines + CRLF) + (content + (CRLF + rest))
  {
  }

  lemma CrlfBetween(text: string, front: string, more: string)
    requires text == front + (CRLF + more)
    ensures |front| + 2 <= |text| && text[|front|..|front| + 2] == CRLF
  {
  }

  /** What is in front of the first content. */
  lemma StartText(boundary: string, parts: seq<Part>)
    requires parts != []
    ensures var text, start := Serialize(parts, boundary), ContentStart(boundary, parts, 0);
            && 2 <= start <= |text| && text[start - 2..start] == CRLF
            && start == |DashBoundaryCrlf(boundary)| + |LinesText(HeaderLines(parts[0].info))| + 2
  {
    var open, lines := DashBoundaryCrlf(boundary), LinesText(HeaderLines(parts[0].info));
    var rest := Serialize(parts[1..], boundary);
    assert parts[0..] == parts;
    SerializeBlocks(boundary, parts);
    BlockShape(open, lines, parts[0].content, rest);
    CrlfBetween(Serialize(parts, boundary), open + lines, parts[0].content + CRLF + rest);
  }

  lemma PrintedLinesPlain(c: Setup, part: Part)
    requires WellFormed(c, part)
    ensures forall line :: line in HeaderLines(part.info) ==> PlainLine(line)
  {
    assert DispositionLine(part.info)[0] == 'C' && ("Content-Type: " + part.info.contentType)[0] == 'C';
  }

  lemma GapShift(text: string, from: nat, gap: string, more: string, d: string, j: nat)
    requires from <= j && from <= |text| && text[from..] == gap + more && OccursAt(text, d, j)
    ensures OccursAt(gap + more, d, j - from)
  {
    assert text[from..][j - from..j - from + |d|] == text[j..j + |d|];
  }

  lemma GapLength(boundary: string, parts: seq<Part>, i: nat)
    requires i + 1 < |parts|
    ensures var gap := CrlfDashBoundary(boundary) + HeaderText(HeaderLines(parts[i + 1].info));
            ContentStart(boundary, parts, i + 1) == ContentEnd(boundary, parts, i) + |gap|
  {
    PartText(boundary, parts, i);
  }

  lemma GapText(boundary: string, parts: seq<Part>)
    requires parts != []
    ensures var gap := CrlfDashBoundary(boundary) + HeaderText(HeaderLines(parts[0].info));
            CrlfDashBoundary(boundary) + AfterBoundary(boundary, parts) == gap + BodyText(boundary, parts)
  {
    var d, lines, body := CrlfDashBoundary(boundary), LinesText(HeaderLines(parts[0].info)), BodyText(boundary, parts);
    GapShape(d, lines, body);
  }

  lemma GapShape(d: string, lines: string, body: string)
    ensures d + (CRLF + (lines + CRLF + body)) == d + (CRLF + lines + CRLF) + body
  {
  }

  /** From the end of a content, the text shows a delimiter, header lines, and the next content. */
  ghost predicate ShowsGap(text: string, from: int, boundary: string, lines: seq<string>, more: string, next: int) {
    var gap := CrlfDashBoundary(boundary) + HeaderText(lines);
    0 <= from <= |text| && text[from..] == gap + more && next == from + |gap|
  }

  lemma GapShown(boundary: string, parts: seq<Part>, i: nat)
    requires i + 1 < |parts|
    ensures ShowsGap(Serialize(parts, boundary), ContentEnd(boundary, parts, i), boundary,
                     HeaderLines(parts[i + 1].info), BodyText(boundary, parts[i + 1..]),
                     ContentStart(boundary, parts, i + 1))
  {
    var rest := parts[i + 1..];
    assert rest[0] == parts[i + 1];
    EndText(boundary, parts, i);
    GapLength(boundary, parts, i);
    GapText(boundary, rest);
  }

  lemma GapHasNone(c: Setup, parts: seq<Part>, i: nat, j: int)
    requires ValidBoundary(c.boundary) && i + 1 < |parts| && WellFormed(c, parts[i + 1])
    requires ContentEnd(c.boundary, parts, i) < j < ContentStart(c.boundary, parts, i + 1) - 2
    ensures !OccursAt(Serialize(parts, c.boundary), CrlfDashBoundary(c.boundary), j)
  {
    GapShown(c.boundary, parts, i);
    PrintedLinesPlain(c, parts[i + 1]);
    NoneInGapOf(c.boundary, Serialize(parts, c.boundary), ContentEnd(c.boundary, parts, i),
                HeaderLines(parts[i + 1].info), BodyText(c.boundary, parts[i + 1..]),
                ContentStart(c.boundary, parts, i + 1), j);
  }

  lemma NoneInGapOf(boundary: string, text: string, from: int, lines: seq<string>, more: string, next: int, j: int)
    requires ValidBoundary(boundary) && forall line :: line in lines ==> PlainLine(line)
    requires ShowsGap(text, from, boundary, lines, more, next) && from < j < next - 2
    ensures !OccursAt(text, CrlfDashBoundary(boundary), j)
  {
    if OccursAt(text, CrlfDashBoundary(boundary), j) {
      GapShift(text, from, CrlfDashBoundary(boundary) + HeaderText(lines), more, CrlfDashBoundary(boundary), j);
      NoDelimiterInGap(boundary, lines, more, j - from);
    }
  }

  function PlacesOf(boundary: string, parts: seq<Part>): Places {
    Places(Serialize(parts, boundary), seq(|parts|, i requires 0 <= i < |parts| => ContentStart(boundary, parts, i)))
  }

  lemma MapDelimiter(boundary: string, parts: seq<Part>, i: nat)
    requires i < |parts|
    ensures var m := PlacesOf(boundary, parts); m.starts[i] >= 2 && DelimiterAt(boundary, parts, m, i)
  {
    TextFrom(boundary, parts, i);
    EndText(boundary, parts, i);
    DelimiterInFront(Serialize(parts, boundary), ContentEnd(boundary, parts, i), CrlfDashBoundary(boundary),
                     AfterBoundary(boundary, parts[i + 1..]));
  }

  lemma TailText(boundary: string)
    ensures CrlfDashBoundary(boundary) + AfterBoundary(boundary, []) == CrlfDashBoundary(boundary) + "--" + CRLF
  {
  }

  lemma MapTail(boundary: string, parts: seq<Part>, last: nat)
    requires last + 1 == |parts|
    ensures MapsTail(boundary, parts, PlacesOf(boundary, parts), last)
  {
    EndText(boundary, parts, last);
    ContentText(boundary, parts, last);
    assert parts[last + 1..] == [];
    TailText(boundary);
  }

  lemma ContentText(boundary: string, parts: seq<Part>, i: nat)
    requires i < |parts|
    ensures 0 <= ContentStart(boundary, parts, i) <= ContentEnd(boundary, parts, i) <= |Serialize(parts, boundary)|
    ensures Serialize(parts, boundary)[ContentStart(boundary, parts, i)..ContentEnd(boundary, parts, i)]
              == parts[i].content
  {
    TextFrom(boundary, parts, i);
    PartText(boundary, parts, i);
    ContentPlace(Serialize(parts, boundary), Offset(boundary, parts, i), DashBoundaryCrlf(boundary),
                 LinesText(HeaderLines(parts[i].info)), parts[i].content, Serialize(parts[i + 1..], boundary),
                 ContentStart(boundary, parts, i), ContentEnd(boundary, parts, i));
  }

  lemma ContentPlace(text: string, from: nat, open: string, lines: string, content: string, rest: string,
                     start: int, end: int)
    requires from <= |text| && text[from..] == open + (lines + CRLF + content + CRLF) + rest
    requires start == from + |open| + |lines| + 2 && end == start + |content|
    ensures 0 <= start <= end <= |text| && text[start..end] == content
  {
    BlockShape(open, lines, content, rest);
    SliceInside(text, from, open + lines + CRLF, content, CRLF + rest);
  }

  lemma SliceInside(text: string, from: nat, front: string, middle: string, more: string)
    requires from <= |text| && text[from..] == front + (middle + more)
    ensures from + |front| + |middle| <= |text|
    ensures text[from + |front|..from + |front| + |middle|] == middle
  {
    var t := text[from..];
    assert |t| == |front| + |middle| + |more|;
    assert t[|front|..|front| + |middle|] == middle;
    assert text[from + |front|..from + |front| + |middle|] == t[|front|..|front| + |middle|];
  }

  lemma MapDelimiters(boundary: string, parts: seq<Part>)
    ensures MapsDelimiters(boundary, parts, PlacesOf(boundary, parts))
  {
    var m := PlacesOf(boundary, parts);
    forall i | 0 <= i < |parts|
      ensures m.starts[i] >= 2 && DelimiterAt(boundary, parts, m, i)
    {
      MapDelimiter(boundary, parts, i);
    }
  }

  lemma MapGaps(c: Setup, parts: seq<Part>)
    requires ValidBoundary(c.boundary) && forall part :: part in parts ==> WellFormed(c, part)
    ensures MapsGaps(c.boundary, parts, PlacesOf(c.boundary, parts))
  {
    var m := PlacesOf(c.boundary, parts);
    forall i, j | 0 <= i < |parts| - 1 && InGap(parts, m, i, j)
      ensures !OccursAt(m.text, CrlfDashBoundary(c.boundary), j)
    {
      GapHasNone(c, parts, i, j);
    }
  }

  lemma MapStart(boundary: string, parts: seq<Part>)
    requires parts != []
    ensures MapsStart(PlacesOf(boundary, parts))
  {
    StartText(boundary, parts);
  }

  lemma MapOfText(c: Setup, parts: seq<Part>)
    requires ValidBoundary(c.boundary) && parts != [] && forall part :: part in parts ==> WellFormed(c, part)
    ensures Mapped(c.boundary, parts, PlacesOf(c.boundary, parts))
  {
    MapDelimiters(c.boundary, parts);
    MapGaps(c, parts);
    MapTail(c.boundary, parts, |parts| - 1);
    MapStart(c.boundary, parts);
  }

  lemma DelimiterInFront(text: string, from: nat, d: string, more: string)
    requires from <= |text| && text[from..] == d + more
    ensures OccursAt(text, d, from)
  {
    assert |text[from..]| == |d| + |more|;
    assert text[from..from + |d|] == text[from..][..|d|];
  }

  // ---- A parser that is behind the parts ----

  predicate LineStart(text: string, pos: int) { 2 <= pos <= |text| && text[pos - 2..pos] == CRLF }

  /** In front of the empty line of the first part, with its content type not read. */
  predicate AtBlank(parts: seq<Part>, m: Places, pos: int, q: Parser)
    requires |m.starts| == |parts| && parts != []
  {
    pos == m.starts[0] - 2 && (q.state == 2 ==> q.file == NO_FILE) && parts[0].info != NO_FILE
  }

  /** The header lines for part `k` are read from behind the place where its content starts. */
  predicate LateHeader(parts: seq<Part>, m: Places, k: nat, pos: int, q: Parser)
    requires |m.starts| == |parts|
  {
    && k < |parts| && LineStart(m.text, pos)
    && (pos > m.starts[k] || (k == 0 && AtBlank(parts, m, pos, q)))
  }

  /** The content handed out for part `i` starts behind its content, at `s`. */
  ghost predicate LateContent(boundary: string, parts: seq<Part>, m: Places, i: nat, s: int, pos: int, content: string)
    requires |m.starts| == |parts|
  {
    && i < |parts| && m.starts[i] < s && 0 <= s <= pos <= |m.text| && content == m.text[s..pos]
    && LineStart(m.text, s) && LineStart(m.text, s - 2)
    && forall j :: s <= j < pos ==> !OccursAt(m.text, CrlfDashBoundary(boundary), j)
  }

  function LastContent(events: seq<Event>): string
    requires Delivered(events) != []
  {
    Delivered(events)[|Delivered(events)| - 1].content
  }

  /** `fed` bytes of the text have been given to the parser, and its buffer starts at `pos`. */
  predicate Reads(text: string, pos: int, fed: int, q: Parser) {
    0 <= pos <= fed <= |text| && q.buf == text[pos..fed]
  }

  /** The content handed out last ends at `pos`. */
  ghost predicate LateBody(boundary: string, parts: seq<Part>, m: Places, pos: int, q: Parser)
    requires |m.starts| == |parts|
  {
    var k := |Delivered(q.events)|;
    k > 0 &&
    var content := LastContent(q.events);
    && LateContent(boundary, parts, m, k - 1, pos - |content|, pos, content)
    && (content != "" ==> |q.buf| >= |CrlfDashBoundary(boundary)|)
  }

  /** What the parser reads at `pos` is late. */
  ghost predicate LateAt(boundary: string, parts: seq<Part>, m: Places, pos: int, q: Parser)
    requires |m.starts| == |parts|
  {
    var k := |Delivered(q.events)|;
    && 1 <= q.state <= 4
    && (q.state <= 2 ==> LateHeader(parts, m, k, pos, q))
    && (q.state == 3 ==> LateBody(boundary, parts, m, pos, q))
    && (q.state == 4 ==> k < |parts| && pos > m.starts[k])
  }

  ghost predicate Late(boundary: string, parts: seq<Part>, m: Places, fed: int, q: Parser)
    requires |m.starts| == |parts|
  {
    Reads(m.text, fed - |q.buf|, fed, q) && LateAt(boundary, parts, m, fed - |q.buf|, q)
  }

  // ---- It stays behind ----

  lemma BufferShows(text: string, pos: nat, fed: nat, p: string, x: nat)
    requires pos <= fed <= |text| && x + |p| <= fed - pos
    ensures OccursAt(text[pos..fed], p, x) <==> OccursAt(text, p, pos + x)
  {
    SliceOfSlice(text, pos, fed, x, x + |p|);
  }

  /** A delimiter behind the one that ends part `i` reaches into the content of the next. */
  lemma FoundLate(boundary: string, parts: seq<Part>, m: Places, i: nat, e: int)
    requires ValidBoundary(boundary) && Mapped(boundary, parts, m) && i < |parts|
    requires e > EndOf(parts, m, i) && OccursAt(m.text, CrlfDashBoundary(boundary), e)
    ensures i + 1 < |parts| && e + |CrlfDashBoundary(boundary)| > m.starts[i + 1]
  {
    var d, end := CrlfDashBoundary(boundary), EndOf(parts, m, i);
    if i + 1 < |parts| {
      assert !InGap(parts, m, i, e);
    } else {
      var tail := d + "--" + CRLF;
      assert m.text[end..] == tail + "" == tail;
      GapShift(m.text, end, tail, "", d, e);
      NoDelimiterInTail(boundary, e - end);
    }
  }

  lemma LineStartChars(text: string, pos: int)
    requires LineStart(text, pos)
    ensures text[pos - 2] == '\r' && text[pos - 1] == '\n'
  {
    assert text[pos - 2..pos][0] == text[pos - 2] && text[pos - 2..pos][1] == text[pos - 1];
  }

  /** At the end of the text a content that starts late is not that of the last part. */
  lemma EndLate(boundary: string, parts: seq<Part>, m: Places, i: nat, s: int, pos: int, content: string)
    requires ValidBoundary(boundary) && Mapped(boundary, parts, m) && i + 1 == |parts|
    requires LateContent(boundary, parts, m, i, s, pos, content)
    requires |m.text| - pos <= |CrlfDashBoundary(boundary)|
    requires content != "" ==> |m.text| - pos >= |CrlfDashBoundary(boundary)|
    ensures content != parts[i].content
  {
    var d, end, text := CrlfDashBoundary(boundary), EndOf(parts, m, i), m.text;
    assert DelimiterAt(boundary, parts, m, i);
    if s <= end {
      assert false;
    } else {
      BehindEnd(boundary, text, end, s);
      TailCharacters(boundary, text, end);
      assert |content| >= 2 && content[1] == text[end + 3] == '-';
      if |parts[i].content| == |content| {
        LineStartChars(text, end);
        assert parts[i].content[1] == text[end - 1];
      }
    }
  }

  /** Behind the last content a line starts behind an empty one only at its delimiter. */
  lemma BehindEnd(boundary: string, text: string, end: int, s: int)
    requires 0 <= end <= |text| && text[end..] == CrlfDashBoundary(boundary) + "--" + CRLF && s > end
    requires LineStart(text, s) && LineStart(text, s - 2) && ValidBoundary(boundary)
    ensures s == end + 2 && |text| == end + |CrlfDashBoundary(boundary)| + 4
  {
    LineStartChars(text, s);
    LineStartChars(text, s - 2);
    TailCharacters(boundary, text, end);
  }

  lemma TailCharacters(boundary: string, text: string, end: int)
    requires 0 <= end <= |text| && text[end..] == CrlfDashBoundary(boundary) + "--" + CRLF && ValidBoundary(boundary)
    ensures |text| == end + |CrlfDashBoundary(boundary)| + 4
    ensures text[end] == '\r' && text[end + 1] == '\n' && text[end + 2] == text[end + 3] == '-'
    ensures text[|text| - 4] == '-' && forall x :: end < x < |text| - 2 ==> text[x] != '\r'
  {
    var tail := CrlfDashBoundary(boundary) + "--" + CRLF;
    var t := text[end..];
    assert |t| == |tail|;
    assert forall x :: 0 < x < |tail| - 2 ==> tail[x] != '\r';
    assert forall x :: 0 <= x < |tail| ==> text[end + x] == t[x] == tail[x];
    forall x | end < x < |text| - 2
      ensures text[x] != '\r'
    {
      assert text[end + (x - end)] == tail[x - end];
    }
  }

  lemma Grown(text: string, pos: nat, fed: nat, chunk: string, rest: string)
    requires pos <= fed <= |text| && text[fed..] == chunk + rest
    ensures fed + |chunk| <= |text| && text[pos..fed] + chunk == text[pos..fed + |chunk|]
    ensures text[fed + |chunk|..] == rest
  {
    SkipChunk(text, fed, chunk, rest);
    assert chunk == text[fed..][..|chunk|] == text[fed..fed + |chunk|];
  }

  lemma LateFed(boundary: string, parts: seq<Part>, m: Places, pos: int, p: Parser, q: Parser)
    requires |m.starts| == |parts| && LateAt(boundary, parts, m, pos, p)
    requires q == p.(buf := q.buf) && |q.buf| >= |p.buf|
    ensures LateAt(boundary, parts, m, pos, q)
  {
  }

  lemma TailOfBuffer(text: string, pos: nat, fed: nat, x: nat)
    requires pos <= fed <= |text| && x <= fed - pos
    ensures text[pos..fed][x..] == text[pos + x..fed] && text[pos..fed][..x] == text[pos..pos + x]
  {
  }

  /** In front of an empty line the header state finds it at once. */
  lemma BlankFound(text: string, pos: nat, fed: nat, x: nat)
    requires pos <= fed <= |text| && x == Index(text[pos..fed], CRLF) && x < fed - pos
    requires OccursAt(text[pos..fed], CRLF, x) && pos + 2 <= |text| && text[pos..pos + 2] == CRLF
    ensures x == 0
  {
    BufferShows(text, pos, fed, CRLF, 0);
  }

  lemma LineBehind(text: string, pos: nat, fed: nat, x: nat)
    requires pos <= fed <= |text| && OccursAt(text[pos..fed], CRLF, x)
    ensures LineStart(text, pos + x + 2)
  {
    BufferShows(text, pos, fed, CRLF, x);
  }

  /** A complete header line. */
  lemma LateLine(parts: seq<Part>, m: Places, k: nat, pos: nat, fed: nat, p: Parser, x: nat)
    requires |m.starts| == |parts| && parts != [] && MapsStart(m)
    requires Reads(m.text, pos, fed, p) && LateHeader(parts, m, k, pos, p)
    requires x == Index(p.buf, CRLF) && 0 < x < |p.buf| && OccursAt(p.buf, CRLF, x)
    ensures LineStart(m.text, pos + x + 2) && pos > m.starts[k]
  {
    LineBehind(m.text, pos, fed, x);
    if pos == m.starts[0] - 2 {
      BlankFound(m.text, pos, fed, x);
    }
  }

  /** The turn consumes `x` bytes. */
  lemma LateOn(boundary: string, parts: seq<Part>, m: Places, pos: nat, fed: nat, p: Parser, q: Parser, x: nat,
               next: nat)
    requires |m.starts| == |parts| && Reads(m.text, pos, fed, p)
    requires x <= |p.buf| && q.buf == p.buf[x..] && next == pos + x
    ensures LateAt(boundary, parts, m, next, q) ==> Late(boundary, parts, m, fed, q)
  {
    TailOfBuffer(m.text, pos, fed, x);
    assert fed - |q.buf| == next;
  }

  /** The header lines go on behind a complete line, */
  lemma LineRead(boundary: string, parts: seq<Part>, m: Places, pos: int, p: Parser, file: FileInfo, buf: string,
                 next: int)
    requires |m.starts| == |parts| && LateAt(boundary, parts, m, pos, p) && p.state == 2
    requires LineStart(m.text, next) && next > pos > m.starts[|Delivered(p.events)|]
    ensures LateAt(boundary, parts, m, next, p.(file := file, buf := buf))
  {
  }

  /** or the line is refused. */
  lemma LineRefused(boundary: string, parts: seq<Part>, m: Places, fed: int, p: Parser, file: FileInfo)
    requires |m.starts| == |parts| && Late(boundary, parts, m, fed, p) && p.state == 2
    requires fed - |p.buf| > m.starts[|Delivered(p.events)|]
    ensures Late(boundary, parts, m, fed, p.(file := file, isValid := false))
  {
  }

  /** The empty line behind the header lines. */
  lemma LateBegins(c: Setup, parts: seq<Part>, m: Places, pos: nat, fed: nat, p: Parser, q: Parser, next: nat)
    requires |m.starts| == |parts| && parts != []
    requires Reads(m.text, pos, fed, p) && LateAt(c.boundary, parts, m, pos, p) && HeaderTurn(c, p, q)
    requires Index(p.buf, CRLF) == 0 && next == pos + 2
    ensures LateAt(c.boundary, parts, m, next, q) || Wrong(parts, q.events, q.state == 3)
    ensures q.buf == p.buf[2..]
  {
    var d := Delivered(p.events);
    DeliveredBegins(p.events, p.file);
    LineBehind(m.text, pos, fed, 0);
    if pos > m.starts[|d|] {
      assert LastContent(q.events) == "";
      assert LateContent(c.boundary, parts, m, |d|, next, next, "");
    } else {
      assert WrongAt(parts, Delivered(q.events), 0, true);
    }
  }

  lemma LateHeaderTurn(c: Setup, parts: seq<Part>, m: Places, pos: nat, fed: nat, p: Parser, q: Parser)
    requires |m.starts| == |parts| && parts != [] && MapsStart(m)
    requires Late(c.boundary, parts, m, fed, p) && pos == fed - |p.buf| && HeaderTurn(c, p, q)
    ensures Late(c.boundary, parts, m, fed, q) || Wrong(parts, q.events, q.state == 3)
  {
    var x := Index(p.buf, CRLF);
    var next := pos + x + 2;
    if x == 0 {
      LateBegins(c, parts, m, pos, fed, p, q, next);
      LateOn(c.boundary, parts, m, pos, fed, p, q, 2, next);
    } else {
      LateLine(parts, m, |Delivered(p.events)|, pos, fed, p, x);
      var file := Read(c, p, x).0;
      if Read(c, p, x).1 {
        LineRead(c.boundary, parts, m, pos, p, file, p.buf[x + 2..], next);
        LateOn(c.boundary, parts, m, pos, fed, p, q, x + 2, next);
      } else {
        LineRefused(c.boundary, parts, m, fed, p, file);
      }
    }
  }

  lemma ContentOn(text: string, s: nat, pos: nat, fed: nat, x: nat, next: nat)
    requires s <= pos <= next <= fed <= |text| && next == pos + x
    ensures text[s..pos] + text[pos..fed][..x] == text[s..next]
  {
    TailOfBuffer(text, pos, fed, x);
  }

  /** What the callbacks of a body turn add to the last part. */
  lemma LastGrows(p: Parser, data: string)
    requires Delivered(p.events) != []
    ensures var d, e := Delivered(p.events), Delivered(p.events + [Content(data)]);
            && |e| == |d| && e[|d| - 1].content == LastContent(p.events) + data
  {
    var d := Delivered(p.events);
    assert d == d[..|d| - 1] + [d[|d| - 1]];
    DeliveredContent(p.events, d[..|d| - 1], d[|d| - 1], data);
  }

  ghost predicate BehindPart(boundary: string, parts: seq<Part>, m: Places, i: nat, e: int)
    requires |m.starts| == |parts|
  {
    i < |parts| && e > EndOf(parts, m, i) && OccursAt(m.text, CrlfDashBoundary(boundary), e)
  }

  predicate ReachesNext(boundary: string, parts: seq<Part>, m: Places, i: nat, e: int)
    requires |m.starts| == |parts|
  {
    i + 1 < |parts| && e + |CrlfDashBoundary(boundary)| > m.starts[i + 1]
  }

  /** What makes lateness last: a delimiter behind the one of a part reaches into the next content. */
  ghost predicate NoWayBack(boundary: string, parts: seq<Part>, m: Places) {
    && |m.starts| == |parts| && parts != [] && MapsStart(m)
    && forall i: nat, e: int :: BehindPart(boundary, parts, m, i, e) ==> ReachesNext(boundary, parts, m, i, e)
  }

  lemma MapHasNoWayBack(boundary: string, parts: seq<Part>, m: Places)
    requires ValidBoundary(boundary) && Mapped(boundary, parts, m)
    ensures NoWayBack(boundary, parts, m)
  {
    forall i: nat, e: int | BehindPart(boundary, parts, m, i, e)
      ensures ReachesNext(boundary, parts, m, i, e)
    {
      FoundLate(boundary, parts, m, i, e);
    }
  }

  lemma LateEnds(boundary: string, parts: seq<Part>, m: Places, i: nat, s: int, pos: int, content: string, data: string,
                 e: int)
    requires NoWayBack(boundary, parts, m)
    requires LateContent(boundary, parts, m, i, s, pos, content) && e == pos + |data|
    requires content + data == parts[i].content && OccursAt(m.text, CrlfDashBoundary(boundary), e)
    ensures ReachesNext(boundary, parts, m, i, e)
  {
    assert |content + data| == |content| + |data|;
    assert BehindPart(boundary, parts, m, i, e);
  }

  lemma WrongEnd(parts: seq<Part>, events: seq<Event>, i: nat)
    requires i < |Delivered(events)| && i < |parts| && Delivered(events)[i].content != parts[i].content
    ensures Wrong(parts, events, false)
  {
    assert WrongAt(parts, Delivered(events), i, false);
  }

  /** The delimiter is found at `e`, and the content of part `i` is complete with `data`. */
  ghost predicate Found(boundary: string, parts: seq<Part>, m: Places, i: nat, pos: int, content: string,
                        data: string, e: int, q: Parser)
    requires |m.starts| == |parts|
  {
    && LateContent(boundary, parts, m, i, pos - |content|, pos, content) && e == pos + |data|
    && OccursAt(m.text, CrlfDashBoundary(boundary), e)
    && |Delivered(q.events)| == i + 1 && LastContent(q.events) == content + data && q.state == 4
  }

  lemma LateFound(boundary: string, parts: seq<Part>, m: Places, i: nat, pos: int, content: string,
                  data: string, e: int, next: int, q: Parser)
    requires NoWayBack(boundary, parts, m) && next == e + |CrlfDashBoundary(boundary)|
    requires Found(boundary, parts, m, i, pos, content, data, e, q)
    ensures Wrong(parts, q.events, false) || LateAt(boundary, parts, m, next, q)
  {
    if content + data == parts[i].content {
      LateEnds(boundary, parts, m, i, pos - |content|, pos, content, data, e);
    } else {
      WrongEnd(parts, q.events, i);
    }
  }

  lemma FoundByTurn(c: Setup, parts: seq<Part>, m: Places, pos: nat, fed: nat, p: Parser, q: Parser, x: nat, e: nat)
    requires |m.starts| == |parts| && BodyTurn(c, p, q)
    requires Reads(m.text, pos, fed, p) && LateBody(c.boundary, parts, m, pos, p)
    requires x == Index(p.buf, CrlfDashBoundary(c.boundary)) && x < |p.buf| && e == pos + x
    requires OccursAt(m.text, CrlfDashBoundary(c.boundary), e)
    ensures q.state == 4 && q.buf == p.buf[x + |CrlfDashBoundary(c.boundary)|..]
    ensures Found(c.boundary, parts, m, |Delivered(p.events)| - 1, pos, LastContent(p.events), p.buf[..x], e, q)
  {
    LastGrows(p, p.buf[..x]);
  }

  lemma NotYetFound(text: string, pos: nat, fed: nat, d: string, next: nat)
    requires pos <= next <= fed <= |text| && next + |d| == fed && d != "" && Index(text[pos..fed], d) == fed - pos
    ensures forall j :: pos <= j < next ==> !OccursAt(text, d, j)
  {
    forall j | pos <= j < next
      ensures !OccursAt(text, d, j)
    {
      BufferShows(text, pos, fed, d, j - pos);
    }
  }

  /** All but a possible start of the delimiter is handed out. */
  lemma LateGrows(c: Setup, parts: seq<Part>, m: Places, pos: nat, fed: nat, p: Parser, q: Parser, x: nat, next: nat)
    requires |m.starts| == |parts| && p.state == 3 && next == pos + x && x + |CrlfDashBoundary(c.boundary)| == |p.buf|
    requires Reads(m.text, pos, fed, p) && LateBody(c.boundary, parts, m, pos, p) && pos == fed - |p.buf|
    requires Index(p.buf, CrlfDashBoundary(c.boundary)) == |p.buf|
    requires q.events == p.events + [Content(p.buf[..x])] && q.buf == p.buf[x..]
    ensures LateBody(c.boundary, parts, m, next, q)
  {
    var content := LastContent(p.events);
    LastGrows(p, p.buf[..x]);
    NotYetFound(m.text, pos, fed, CrlfDashBoundary(c.boundary), next);
    ContentOn(m.text, pos - |content|, pos, fed, x, next);
  }

  lemma FoundOn(boundary: string, parts: seq<Part>, m: Places, i: nat, pos: nat, fed: nat, content: string,
                data: string, p: Parser, q: Parser, x: nat, e: int, next: nat)
    requires NoWayBack(boundary, parts, m) && Reads(m.text, pos, fed, p)
    requires Found(boundary, parts, m, i, pos, content, data, e, q) && next == e + |CrlfDashBoundary(boundary)|
    requires x <= |p.buf| && q.buf == p.buf[x..] && next == pos + x
    ensures Late(boundary, parts, m, fed, q) || Wrong(parts, q.events, false)
  {
    LateFound(boundary, parts, m, i, pos, content, data, e, next, q);
    LateOn(boundary, parts, m, pos, fed, p, q, x, next);
  }

  lemma LateDelimiterTurn(c: Setup, parts: seq<Part>, m: Places, pos: nat, fed: nat, p: Parser, q: Parser, x: nat,
                          e: nat, next: nat)
    requires NoWayBack(c.boundary, parts, m) && BodyTurn(c, p, q)
    requires Reads(m.text, pos, fed, p) && LateBody(c.boundary, parts, m, pos, p)
    requires x == Index(p.buf, CrlfDashBoundary(c.boundary)) && x < |p.buf|
    requires e == pos + x && next == e + |CrlfDashBoundary(c.boundary)|
    requires OccursAt(m.text, CrlfDashBoundary(c.boundary), e)
    ensures Late(c.boundary, parts, m, fed, q) || Wrong(parts, q.events, q.state == 3)
  {
    FoundByTurn(c, parts, m, pos, fed, p, q, x, e);
    FoundOn(c.boundary, parts, m, |Delivered(p.events)| - 1, pos, fed, LastContent(p.events), p.buf[..x],
            p, q, x + |CrlfDashBoundary(c.boundary)|, e, next);
  }

  lemma LateDataTurn(c: Setup, parts: seq<Part>, m: Places, pos: nat, fed: nat, p: Parser, q: Parser, x: nat, next: nat)
    requires |m.starts| == |parts| && BodyTurn(c, p, q) && Index(p.buf, CrlfDashBoundary(c.boundary)) == |p.buf|
    requires Reads(m.text, pos, fed, p) && LateBody(c.boundary, parts, m, pos, p) && pos == fed - |p.buf|
    requires next == pos + x && x + |CrlfDashBoundary(c.boundary)| == |p.buf|
    ensures Late(c.boundary, parts, m, fed, q)
  {
    LateGrows(c, parts, m, pos, fed, p, q, x, next);
    LateOn(c.boundary, parts, m, pos, fed, p, q, x, next);
  }

  lemma LateBodyTurn(c: Setup, parts: seq<Part>, m: Places, pos: nat, fed: nat, p: Parser, q: Parser)
    requires NoWayBack(c.boundary, parts, m)
    requires Late(c.boundary, parts, m, fed, p) && pos == fed - |p.buf| && BodyTurn(c, p, q)
    ensures Late(c.boundary, parts, m, fed, q) || Wrong(parts, q.events, q.state == 3)
  {
    var x, d := Index(p.buf, CrlfDashBoundary(c.boundary)), |CrlfDashBoundary(c.boundary)|;
    if x < |p.buf| {
      var e, next := pos + x, pos + x + d;
      BufferShows(m.text, pos, fed, CrlfDashBoundary(c.boundary), x);
      LateDelimiterTurn(c, parts, m, pos, fed, p, q, x, e, next);
    } else {
      var len, next := |p.buf| - d, fed - d;
      LateDataTurn(c, parts, m, pos, fed, p, q, len, next);
    }
  }

  lemma LateNextPart(boundary: string, parts: seq<Part>, m: Places, pos: nat, fed: nat, p: Parser, next: nat)
    requires |m.starts| == |parts| && Reads(m.text, pos, fed, p) && LateAt(boundary, parts, m, pos, p)
    requires p.state == 4 && CRLF <= p.buf && next == pos + 2
    ensures LateAt(boundary, parts, m, next, p.(buf := p.buf[2..], state := 1))
  {
    LineBehind(m.text, pos, fed, 0);
  }

  lemma LateClosing(boundary: string, parts: seq<Part>, m: Places, fed: nat, p: Parser)
    requires |m.starts| == |parts| && Late(boundary, parts, m, fed, p) && p.state == 4
    ensures Late(boundary, parts, m, fed, p.(buf := "", isValid := true))
  {
    assert m.text[fed..fed] == "";
  }

  lemma LateBoundaryTurn(boundary: string, parts: seq<Part>, m: Places, pos: nat, fed: nat, p: Parser, q: Parser)
    requires |m.starts| == |parts|
    requires Late(boundary, parts, m, fed, p) && pos == fed - |p.buf| && BoundaryTurn(p, q)
    ensures Late(boundary, parts, m, fed, q)
  {
    var next := pos + 2;
    if CRLF <= p.buf {
      LateNextPart(boundary, parts, m, pos, fed, p, next);
      LateOn(boundary, parts, m, pos, fed, p, q, 2, next);
    } else {
      LateClosing(boundary, parts, m, fed, p);
    }
  }

  lemma LateStart(boundary: string, parts: seq<Part>, m: Places, fed: nat, p: Parser)
    requires |m.starts| == |parts| && Late(boundary, parts, m, fed, p) && p.state == 1
    ensures Late(boundary, parts, m, fed, p.(file := NO_FILE, state := 2))
  {
  }

  /** What is late stays late, or what was delivered can no longer be right. */
  lemma LateTurn(c: Setup, parts: seq<Part>, m: Places, fed: nat, p: Parser, q: Parser)
    requires NoWayBack(c.boundary, parts, m)
    requires Turn(c, p, q) && Late(c.boundary, parts, m, fed, p)
    ensures Late(c.boundary, parts, m, fed, q) || Wrong(parts, q.events, q.state == 3)
  {
    var pos := fed - |p.buf|;
    if HeaderTurn(c, p, q) {
      LateHeaderTurn(c, parts, m, pos, fed, p, q);
    } else if BodyTurn(c, p, q) {
      LateBodyTurn(c, parts, m, pos, fed, p, q);
    } else if BoundaryTurn(p, q) {
      LateBoundaryTurn(c.boundary, parts, m, pos, fed, p, q);
    } else {
      LateStart(c.boundary, parts, m, fed, p);
    }
  }

  // ---- Runs ----

  ghost predicate Behind(boundary: string, parts: seq<Part>, m: Places, fed: int, q: Parser)
    requires |m.starts| == |parts|
  {
    1 <= q.state <= 4 && (Late(boundary, parts, m, fed, q) || Wrong(parts, q.events, q.state == 3))
  }

  lemma BehindTurn(c: Setup, parts: seq<Part>, m: Places, fed: nat, p: Parser, q: Parser)
    requires NoWayBack(c.boundary, parts, m)
    requires Turn(c, p, q) && Behind(c.boundary, parts, m, fed, p)
    ensures Behind(c.boundary, parts, m, fed, q)
  {
    if Late(c.boundary, parts, m, fed, p) {
      LateTurn(c, parts, m, fed, p, q);
    } else {
      WrongTurn(c, parts, p, q);
    }
  }

  lemma BehindDrain(c: Setup, parts: seq<Part>, m: Places, fed: nat, p: Parser) returns (q: Parser, ok: bool)
    requires NoWayBack(c.boundary, parts, m) && forall es :: c.answer(es)
    requires Behind(c.boundary, parts, m, fed, p)
    ensures (q, ok) == Drain(c, p) && Behind(c.boundary, parts, m, fed, q)
    ensures q.state == 3 ==> |q.buf| <= |CrlfDashBoundary(c.boundary)|
    ensures !ok ==> q.state == 2
  {
    var inv := (x: Parser) => Behind(c.boundary, parts, m, fed, x);
    forall x, y | inv(x) && Turn(c, x, y)
      ensures inv(y)
    {
      BehindTurn(c, parts, m, fed, x, y);
    }
    DrainTurns(c, p, inv);
    q, ok := Drain(c, p).0, Drain(c, p).1;
  }

  /** Whatever ends the run, not all the parts have been delivered. */
  lemma BehindEnds(c: Setup, parts: seq<Part>, m: Places, fed: nat, p: Parser)
    requires ValidBoundary(c.boundary) && Mapped(c.boundary, parts, m) && Behind(c.boundary, parts, m, fed, p)
    requires p.state == 3 ==> fed == |m.text| && |p.buf| <= |CrlfDashBoundary(c.boundary)|
    ensures Delivered(p.events) != parts
  {
    var d := Delivered(p.events);
    if !Late(c.boundary, parts, m, fed, p) {
      WrongIsNotRight(parts, p.events, p.state == 3);
    } else if p.state == 3 && |d| == |parts| {
      var pos, content := fed - |p.buf|, LastContent(p.events);
      EndLate(c.boundary, parts, m, |d| - 1, pos - |content|, pos, content);
    }
  }

  /** A call of `parse` that takes `q` on, and all the later ones. */
  lemma {:induction false} BehindFeeds(c: Setup, parts: seq<Part>, m: Places, fed: nat, p: Parser, q: Parser,
                                       chunks: seq<string>)
    requires ValidBoundary(c.boundary) && Mapped(c.boundary, parts, m) && forall es :: c.answer(es)
    requires chunks != [] && p.state <= 4 && 1 <= q.state <= 4 && Feed(c, p, chunks[0]) == Drain(c, q)
    requires Behind(c.boundary, parts, m, fed, q) && fed <= |m.text| && m.text[fed..] == Concat(chunks[1..])
    ensures Delivered(FeedAll(c, p, chunks).0.events) != parts
    decreases |chunks|, 0
  {
    MapHasNoWayBack(c.boundary, parts, m);
    var r, ok := BehindDrain(c, parts, m, fed, q);
    if ok {
      BehindRun(c, parts, m, fed, r, chunks[1..]);
    } else {
      BehindEnds(c, parts, m, fed, r);
    }
  }

  lemma {:induction false} BehindRun(c: Setup, parts: seq<Part>, m: Places, fed: nat, p: Parser, chunks: seq<string>)
    requires ValidBoundary(c.boundary) && Mapped(c.boundary, parts, m) && forall es :: c.answer(es)
    requires Behind(c.boundary, parts, m, fed, p) && fed <= |m.text| && m.text[fed..] == Concat(chunks)
    requires p.state == 3 ==> |p.buf| <= |CrlfDashBoundary(c.boundary)|
    ensures Delivered(FeedAll(c, p, chunks).0.events) != parts
    decreases |chunks|, 1
  {
    if chunks == [] {
      BehindEnds(c, parts, m, fed, p);
    } else {
      var chunk, rest, next := chunks[0], Concat(chunks[1..]), fed + |chunks[0]|;
      SkipChunk(m.text, fed, chunk, rest);
      BehindFed(c.boundary, parts, m, fed, p, chunk, rest, next);
      BehindFeeds(c, parts, m, next, p, p.(buf := p.buf + chunk), chunks);
    }
  }

  /** A chunk that arrives moves nothing. */
  lemma BehindFed(boundary: string, parts: seq<Part>, m: Places, fed: nat, p: Parser, chunk: string, rest: string,
                  next: nat)
    requires |m.starts| == |parts| && Behind(boundary, parts, m, fed, p)
    requires fed <= |m.text| && m.text[fed..] == chunk + rest && next == fed + |chunk|
    ensures Behind(boundary, parts, m, next, p.(buf := p.buf + chunk))
  {
    var pos, q := fed - |p.buf|, p.(buf := p.buf + chunk);
    if Late(boundary, parts, m, fed, p) {
      Grown(m.text, pos, fed, chunk, rest);
      LateFed(boundary, parts, m, pos, p, q);
      assert |p.buf + chunk| == |p.buf| + |chunk|;
      LateIsBehind(boundary, parts, m, pos, next, q);
    }
  }

  // ---- Where a parser that has missed the opening line begins ----

  /** A line ends in front of `x`, as the opening delimiter line does: not empty, and not with a quote. */
  predicate EndsLine(s: string, x: nat) {
    3 <= x <= |s| && s[x - 2] == '\r' && s[x - 1] == '\n' && s[x - 3] != '"' && s[x - 3] != '\n'
  }

  lemma NotInOneLine(line: string, x: nat)
    requires GoodLine(line) && line[|line| - 1] == '"'
    ensures !EndsLine(line + CRLF + CRLF, x)
  {
    if 2 <= x <= |line| {
      InsideLine(line, x - 2);
    }
  }

  lemma BehindTwoLines(a: string, b: string, x: nat)
    requires GoodLine(a) && GoodLine(b) && a[|a| - 1] == '"' && EndsLine(a + CRLF + b + CRLF + CRLF, x)
    ensures x == |a| + |b| + 4
  {
    if x <= |a| {
      InsideLine(a, x - 2);
    } else if |a| + 4 <= x <= |a| + 2 + |b| {
      InsideLine(b, x - 4 - |a|);
    }
  }

  /** Among the header lines, only that of the content type can end like the opening delimiter line. */
  lemma EndsInHeader(c: Setup, part: Part, x: nat)
    requires WellFormed(c, part) && EndsLine(LinesText(HeaderLines(part.info)) + CRLF, x)
    ensures x == |LinesText(HeaderLines(part.info))| && part.info.contentType != ""
  {
    var a, b := DispositionLine(part.info), "Content-Type: " + part.info.contentType;
    assert GoodLine(a) && a[|a| - 1] == '"';
    TextOfLines(a, b);
    if part.info.contentType == "" {
      assert HeaderLines(part.info) == [a];
      NotInOneLine(a, x);
    } else {
      assert HeaderLines(part.info) == [a, b];
      BehindTwoLines(a, b, x);
    }
  }

  lemma TextOfLines(a: string, b: string)
    ensures LinesText([a]) == a + CRLF && LinesText([a, b]) == a + CRLF + b + CRLF
  {
    assert LinesText([a][1..]) == "" && [a, b][1..] == [b] && [b][1..] == [];
    assert a + CRLF + (b + CRLF + "") == a + CRLF + b + CRLF;
  }

  lemma OpeningEnds(boundary: string, text: string, j: nat)
    requires ValidBoundary(boundary) && OccursAt(text, DashBoundaryCrlf(boundary), j)
    ensures EndsLine(text, j + |DashBoundaryCrlf(boundary)|) && LineStart(text, j + |DashBoundaryCrlf(boundary)|)
  {
    var opening := DashBoundaryCrlf(boundary);
    assert forall k :: 0 <= k < |opening| ==> text[j..j + |opening|][k] == text[j + k] == opening[k];
    assert opening[|opening| - 3] == ("--" + boundary)[|boundary| + 1];
  }

  /** A second opening line does not overlap the first. */
  lemma OpeningBehind(boundary: string, text: string, j: nat)
    requires ValidBoundary(boundary) && DashBoundaryCrlf(boundary) <= text
    requires OccursAt(text, DashBoundaryCrlf(boundary), j) && j > 0
    ensures j >= |DashBoundaryCrlf(boundary)|
  {
    var opening := DashBoundaryCrlf(boundary);
    OpeningHasOneLineFeed(boundary);
    assert text[|opening| - 1] == text[..|opening|][|opening| - 1];
    if j < |opening| {
      NoLineFeedInside(text, opening, j, |opening| - 1);
    }
  }

  lemma EndsInMiddle(front: string, middle: string, more: string, x: nat)
    requires EndsLine(front + (middle + more), |front| + x) && 3 <= x <= |middle|
    ensures EndsLine(middle, x)
  {
    var text := front + (middle + more);
    assert text[|front| + x - 2] == middle[x - 2] && text[|front| + x - 1] == middle[x - 1];
    assert text[|front| + x - 3] == middle[x - 3];
  }

  lemma FirstBlock(open: string, lines: string, content: string, rest: string)
    ensures open + (lines + CRLF + content + CRLF) + rest == open + (lines + CRLF + (content + CRLF + rest))
  {
  }

  lemma OpeningPlace(boundary: string, text: string, header: string, more: string, j: nat)
    requires ValidBoundary(boundary) && text == DashBoundaryCrlf(boundary) + (header + more)
    requires j > 0 && OccursAt(text, DashBoundaryCrlf(boundary), j)
    ensures LineStart(text, j + |DashBoundaryCrlf(boundary)|)
    ensures j <= |header| ==> EndsLine(header, j)
  {
    OpeningEnds(boundary, text, j);
    OpeningBehind(boundary, text, j);
    if j <= |header| {
      EndsInMiddle(DashBoundaryCrlf(boundary), header, more, j);
    }
  }

  /** Any opening line but the first is behind the start of the first content, or is its content type. */
  lemma OpeningLate(c: Setup, parts: seq<Part>, m: Places, j: nat, pos: nat)
    requires ValidBoundary(c.boundary) && parts != [] && WellFormed(c, parts[0]) && m == PlacesOf(c.boundary, parts)
    requires j > 0 && OccursAt(m.text, DashBoundaryCrlf(c.boundary), j) && pos == j + |DashBoundaryCrlf(c.boundary)|
    ensures LineStart(m.text, pos)
    ensures pos > m.starts[0] || (pos == m.starts[0] - 2 && parts[0].info.contentType != "")
  {
    var lines, rest := LinesText(HeaderLines(parts[0].info)), Serialize(parts[1..], c.boundary);
    SerializeBlocks(c.boundary, parts);
    FirstBlock(DashBoundaryCrlf(c.boundary), lines, parts[0].content, rest);
    OpeningPlace(c.boundary, m.text, lines + CRLF, parts[0].content + CRLF + rest, j);
    StartText(c.boundary, parts);
    if j <= |lines| + 2 {
      EndsInHeader(c, parts[0], j);
    }
  }

  lemma LateFirst(c: Setup, parts: seq<Part>, m: Places, j: nat, pos: nat, q: Parser)
    requires ValidBoundary(c.boundary) && parts != [] && WellFormed(c, parts[0]) && m == PlacesOf(c.boundary, parts)
    requires j > 0 && OccursAt(m.text, DashBoundaryCrlf(c.boundary), j) && pos == j + |DashBoundaryCrlf(c.boundary)|
    requires q.state == 1 && q.events == []
    ensures LateAt(c.boundary, parts, m, pos, q)
  {
    OpeningLate(c, parts, m, j, pos);
  }

  /** A buffer that starts with an opening line is read from behind it. */
  lemma OpeningRead(c: Setup, p: Parser)
    requires p.state == 0 && DashBoundaryCrlf(c.boundary) <= p.buf
    ensures Drain(c, p) == Drain(c, p.(buf := p.buf[|DashBoundaryCrlf(c.boundary)|..], state := 1))
  {
    var opening := DashBoundaryCrlf(c.boundary);
    assert p.buf[0..0 + |opening|] == opening;
    assert OccursAt(p.buf, opening, 0);
    assert p.buf[0..] == p.buf;
  }

  /** The first chunk that shows an opening line, at `i`: the parser begins behind it. */
  lemma FirstFeed(c: Setup, p: Parser, chunk: string, i: nat) returns (q: Parser)
    requires Waiting(p) && FindFrom(chunk, DashBoundaryCrlf(c.boundary), 0) == Some(i)
    ensures q.state == 1 && q.events == [] && q.buf == chunk[i..][|DashBoundaryCrlf(c.boundary)|..]
    ensures Feed(c, p, chunk) == Drain(c, q)
  {
    ChunkTrimmed(c, p, chunk, i);
    var r := p.(buf := chunk[i..]);
    OpeningRead(c, r);
    q := r.(buf := r.buf[|DashBoundaryCrlf(c.boundary)|..], state := 1);
  }

  lemma FirstBehind(c: Setup, parts: seq<Part>, m: Places, chunk: string, rest: string, k: nat, i: nat, q: Parser,
                    next: nat)
    requires ValidBoundary(c.boundary) && parts != [] && WellFormed(c, parts[0]) && m == PlacesOf(c.boundary, parts)
    requires 0 < k + i && k <= |m.text| && m.text[k..] == chunk + rest && next == k + |chunk|
    requires OccursAt(chunk, DashBoundaryCrlf(c.boundary), i)
    requires q.state == 1 && q.events == [] && q.buf == chunk[i..][|DashBoundaryCrlf(c.boundary)|..]
    ensures Behind(c.boundary, parts, m, next, q)
  {
    var j, pos := k + i, k + i + |DashBoundaryCrlf(c.boundary)|;
    OpeningInChunk(chunk, rest, m.text, k, DashBoundaryCrlf(c.boundary), i);
    LateFirst(c, parts, m, j, pos, q);
    FirstReads(m.text, k, chunk, rest, i, DashBoundaryCrlf(c.boundary), q, pos, next);
    LateIsBehind(c.boundary, parts, m, pos, next, q);
  }

  lemma LateIsBehind(boundary: string, parts: seq<Part>, m: Places, pos: int, fed: int, q: Parser)
    requires |m.starts| == |parts| && Reads(m.text, pos, fed, q) && LateAt(boundary, parts, m, pos, q)
    requires pos == fed - |q.buf|
    ensures Behind(boundary, parts, m, fed, q)
  {
  }

  lemma WrongStart(c: Setup, parts: seq<Part>, m: Places, p: Parser, chunks: seq<string>, k: nat, i: nat)
    requires ValidBoundary(c.boundary) && parts != [] && forall es :: c.answer(es)
    requires (forall part :: part in parts ==> WellFormed(c, part)) && m == PlacesOf(c.boundary, parts)
    requires Waiting(p) && chunks != [] && 0 < k + i && k <= |m.text|
    requires m.text[k..] == chunks[0] + Concat(chunks[1..])
    requires FindFrom(chunks[0], DashBoundaryCrlf(c.boundary), 0) == Some(i)
    ensures Delivered(FeedAll(c, p, chunks).0.events) != parts
  {
    var rest, next := Concat(chunks[1..]), k + |chunks[0]|;
    MapOfText(c, parts);
    SkipChunk(m.text, k, chunks[0], rest);
    var q := FirstFeed(c, p, chunks[0], i);
    FirstBehind(c, parts, m, chunks[0], rest, k, i, q, next);
    BehindFeeds(c, parts, m, next, p, q, chunks);
  }

  lemma FirstReads(text: string, k: nat, chunk: string, rest: string, i: nat, opening: string, q: Parser, pos: nat,
                   next: nat)
    requires k <= |text| && text[k..] == chunk + rest && i + |opening| <= |chunk|
    requires q.buf == chunk[i..][|opening|..] && pos == k + i + |opening| && next == k + |chunk|
    ensures Reads(text, pos, next, q) && next - |q.buf| == pos
  {
    assert chunk == text[k..][..|chunk|] == text[k..next];
    assert q.buf == chunk[i + |opening|..];
    TailOfBuffer(text, k, next, i + |opening|);
  }

  /** Without its first opening line the text never yields the parts. */
  lemma {:induction false} LostRun(c: Setup, parts: seq<Part>, m: Places, p: Parser, chunks: seq<string>, k: nat)
    requires ValidBoundary(c.boundary) && parts != [] && forall es :: c.answer(es)
    requires (forall part :: part in parts ==> WellFormed(c, part)) && m == PlacesOf(c.boundary, parts)
    requires Waiting(p) && k <= |m.text| && Concat(chunks) == m.text[k..]
    requires k > 0 || !OpeningArrivesWhole(c.boundary, chunks)
    ensures Delivered(FeedAll(c, p, chunks).0.events) != parts
    decreases |chunks|
  {
    if chunks != [] {
      var opening, chunk, rest := DashBoundaryCrlf(c.boundary), chunks[0], Concat(chunks[1..]);
      match FindFrom(chunk, opening, 0)
      case None =>
        ChunkLost(c, p, chunk);
        SkipChunk(m.text, k, chunk, rest);
        LostRun(c, parts, m, p, chunks[1..], k + |chunk|);
        assert FeedAll(c, p, chunks) == FeedAll(c, p, chunks[1..]);
      case Some(i) =>
        WrongStart(c, parts, m, p, chunks, k, i);
    }
  }

  /** The exact condition, for any parts the format carries and whatever their contents look like: all the
      parts are delivered if and only if the opening delimiter line is not cut. */
  lemma DeliversAllIffOpeningWhole(c: Setup, parts: seq<Part>, chunks: seq<string>)
    requires ValidBoundary(c.boundary) && parts != [] && forall es :: c.answer(es)
    requires forall part :: part in parts ==> WellFormed(c, part)
    requires Concat(chunks) == Serialize(parts, c.boundary)
    ensures Delivered(FeedAll(c, INITIAL, chunks).0.events) == parts <==> OpeningArrivesWhole(c.boundary, chunks)
  {
    if OpeningArrivesWhole(c.boundary, chunks) {
      ParseInvertsSerialize(c, parts, chunks);
    } else {
      var m := PlacesOf(c.boundary, parts);
      assert m.text[0..] == m.text;
      LostRun(c, parts, m, INITIAL, chunks, 0);
    }
  }

  lemma ConcatTwo(a: string, b: string)
    ensures Concat([a, b]) == a + b
  {
    assert [a, b][1..] == [b] && [b][1..] == [];
    assert Concat([b]) == b + "" == b;
  }

  /** Cut behind its first byte, every form loses parts. */
  lemma CutOpeningLosesParts(c: Setup, parts: seq<Part>)
    requires ValidBoundary(c.boundary) && parts != [] && forall es :: c.answer(es)
    requires forall part :: part in parts ==> WellFormed(c, part)
    ensures var text := Serialize(parts, c.boundary);
            text != "" && Delivered(FeedAll(c, INITIAL, [text[..1], text[1..]]).0.events) != parts
  {
    SerializeShape(c.boundary, parts);
    var text := Serialize(parts, c.boundary);
    ConcatTwo(text[..1], text[1..]);
    DeliversAllIffOpeningWhole(c, parts, [text[..1], text[1..]]);
  }
}
