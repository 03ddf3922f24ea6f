/** How a multipart parse fails: when a callback refuses, when a header line is too long, and when a delimiter is
    followed by neither a line end nor two dashes. */
module MultipartRefusals {
  import opened Text
  import opened Fields
  import opened Multipart

  /** From `from` on, every callback but the last was answered with yes. */
  ghost predicate OnlyLastRefused(c: Setup, from: seq<Event>, to: seq<Event>) {
    from <= to && forall k :: |from| < k < |to| ==> c.answer(to[..k])
  }

  /** The callbacks of a call: if it succeeds, all were answered with yes; and if the last one was refused,
      it does not, and the result is not valid. */
  ghost predicate Answered(c: Setup, from: seq<Event>, q: Parser, ok: bool) {
    && OnlyLastRefused(c, from, q.events)
    && (ok && |q.events| > |from| ==> c.answer(q.events))
    && (|q.events| > |from| && !c.answer(q.events) ==> !ok && !q.isValid)
  }

  lemma OneMore(c: Setup, from: seq<Event>, event: Event)
    ensures OnlyLastRefused(c, from, from + [event])
  {
  }

  lemma Longer(c: Setup, from: seq<Event>, event: Event, q: Parser, ok: bool)
    requires c.answer(from + [event]) && Answered(c, from + [event], q, ok)
    ensures Answered(c, from, q, ok)
  {
    var next := from + [event];
    forall k | |from| < k < |q.events|
      ensures c.answer(q.events[..k])
    {
      assert k == |next| ==> q.events[..k] == next;
    }
    assert q.events == next || |q.events| > |next|;
  }

  lemma {:induction false} HeadersAnswered(c: Setup, p: Parser)
    requires p.state == 2
    ensures Answered(c, p.events, DrainHeaders(c, p).0, DrainHeaders(c, p).1)
    decreases |p.buf|
  {
    var pos := Index(p.buf, CRLF);
    if pos == 0 && pos < |p.buf| {
      OneMore(c, p.events, PartBegins(p.file));
    } else if pos < |p.buf| {
      var (file, ok) := c.readHeader(p.file, p.buf[..pos]);
      if ok {
        HeadersAnswered(c, p.(file := file, buf := p.buf[pos + |CRLF|..]));
      }
    }
  }

  lemma Chained(c: Setup, from: seq<Event>, q: Parser, r: Parser, ok: bool)
    requires Answered(c, from, q, true) && Answered(c, q.events, r, ok)
    ensures Answered(c, from, r, ok)
  {
    forall k | |from| < k < |r.events|
      ensures c.answer(r.events[..k])
    {
      if k <= |q.events| {
        assert r.events[..k] == q.events[..k];
        assert k == |q.events| ==> q.events[..k] == q.events;
      }
    }
    assert |r.events| == |q.events| ==> r.events == q.events;
  }

  lemma Untouched(c: Setup, p: Parser)
    ensures Answered(c, p.events, p, true) && Answered(c, p.events, p, false)
  {
  }

  lemma BodyAnswered(c: Setup, p: Parser) returns (q: Parser, more: bool)
    requires p.state == 3 && p.buf != ""
    ensures more ==> q.state == 4 && Drain(c, p) == Drain(c, q) && |q.buf| < |p.buf| && Answered(c, p.events, q, true)
    ensures !more ==> Answered(c, p.events, Drain(c, p).0, Drain(c, p).1)
  {
    var delimiter := CrlfDashBoundary(c.boundary);
    var pos := Index(p.buf, delimiter);
    q, more := p, false;
    Untouched(c, p);
    if |delimiter| <= |p.buf| {
      var event := Content(if pos < |p.buf| then p.buf[..pos] else p.buf[..|p.buf| - |delimiter|]);
      OneMore(c, p.events, event);
      if pos < |p.buf| && c.answer(p.events + [event]) {
        q, more := p.(events := p.events + [event], buf := p.buf[pos + |delimiter|..], state := 4), true;
      }
    }
  }

  lemma {:induction false} DrainAnswered(c: Setup, p: Parser)
    requires p.state <= 4
    ensures Answered(c, p.events, Drain(c, p).0, Drain(c, p).1)
    decreases 2 * |p.buf| + if p.state == 1 then 1 else 0
  {
    Untouched(c, p);
    if p.buf != "" {
      if p.state == 0 {
        StartAnswered(c, p);
      } else if p.state == 1 {
        DrainAnswered(c, p.(file := NO_FILE, state := 2));
      } else if p.state == 2 {
        var (q, ok) := DrainHeaders(c, p);
        HeadersAnswered(c, p);
        if Index(p.buf, CRLF) <= HEADER_MAX_LENGTH && ok && q.state == 3 {
          DrainAnswered(c, q);
          Chained(c, p.events, q, Drain(c, q).0, Drain(c, q).1);
        }
      } else if p.state == 3 {
        var q, more := BodyAnswered(c, p);
        if more {
          DrainAnswered(c, q);
          Chained(c, p.events, q, Drain(c, q).0, Drain(c, q).1);
        }
      } else if |CRLF| <= |p.buf| && CRLF <= p.buf {
        DrainAnswered(c, p.(buf := p.buf[|CRLF|..], state := 1));
      }
    }
  }

  lemma StartAnswered(c: Setup, p: Parser)
    requires p.state == 0 && p.buf != ""
    ensures Answered(c, p.events, Drain(c, p).0, Drain(c, p).1)
    decreases 2 * |p.buf|, 0
  {
    var opening := DashBoundaryCrlf(c.boundary);
    var q := p.(buf := p.buf[Index(p.buf, opening)..]);
    if |opening| <= |q.buf| && opening <= q.buf {
      DrainAnswered(c, q.(buf := q.buf[|opening|..], state := 1));
    }
  }

  /** Whatever is fed, in whatever chunks: every callback but the last was answered with yes, and if the last
      one was refused, the parse has failed and is not valid. */
  lemma {:induction false} RefusalEndsParse(c: Setup, p: Parser, chunks: seq<string>)
    requires p.state <= 4
    ensures Answered(c, p.events, FeedAll(c, p, chunks).0, FeedAll(c, p, chunks).1)
    decreases |chunks|
  {
    Untouched(c, p);
    if chunks != [] {
      DrainAnswered(c, p.(buf := p.buf + chunks[0]));
      var (q, ok) := Feed(c, p, chunks[0]);
      if ok {
        RefusalEndsParse(c, q, chunks[1..]);
        Chained(c, p.events, q, FeedAll(c, q, chunks[1..]).0, FeedAll(c, q, chunks[1..]).1);
      }
    }
  }

  // ---- Header lines that are too long ----

  /** Where a header line begins the buffer, and does not end within the limit, the parse ends. */
  lemma LongHeaderRefused(c: Setup, p: Parser)
    requires p.state == 2 && |p.buf| > HEADER_MAX_LENGTH
    requires forall i :: 0 <= i <= HEADER_MAX_LENGTH ==> !OccursAt(p.buf, CRLF, i)
    ensures Drain(c, p) == (p, false)
  {
  }

  /** A line that has come together with the one in front of it is not measured: however long it is, it is read,
      if the reader accepts it. */
  lemma LaterLineNotMeasured(c: Setup, p: Parser, first: string, second: string, more: string)
    requires p.state == 2 && p.buf == first + CRLF + (second + CRLF + more)
    requires first != "" && |first| <= HEADER_MAX_LENGTH && FindFrom(first, CRLF, 0).None?
    requires second != "" && FindFrom(second, CRLF, 0).None?
    requires c.readHeader(p.file, first).1
    ensures var file := c.readHeader(p.file, first).0;
            var (next, ok) := c.readHeader(file, second);
            DrainHeaders(c, p) == if ok then DrainHeaders(c, p.(file := next, buf := more))
                                  else (p.(file := next, buf := second + CRLF + more, isValid := false), false)
    ensures Index(p.buf, CRLF) <= HEADER_MAX_LENGTH
  {
    LineTaken(c, p, first, second + CRLF + more);
    LineTaken(c, p.(file := c.readHeader(p.file, first).0, buf := second + CRLF + more), second, more);
  }

  lemma LineTaken(c: Setup, p: Parser, line: string, more: string)
    requires p.state == 2 && p.buf == line + CRLF + more && line != "" && FindFrom(line, CRLF, 0).None?
    ensures Index(p.buf, CRLF) == |line|
    ensures var (file, ok) := c.readHeader(p.file, line);
            DrainHeaders(c, p) == if ok then DrainHeaders(c, p.(file := file, buf := more))
                                  else (p.(file := file, isValid := false), false)
  {
    assert Unbordered(CRLF);
    FirstDelimiter(line, CRLF, more, p.buf);
    assert p.buf[..|line|] == line && p.buf[|line| + |CRLF|..] == more;
  }

  // ---- Delimiters that nothing legal follows ----

  predicate Stuck(p: Parser) {
    p.state == 4 && |p.buf| >= 2 && !(CRLF <= p.buf) && !("--" <= p.buf)
  }

  /** The parser then takes whatever comes, without a callback and without an end. */
  lemma {:induction false} StuckForEver(c: Setup, p: Parser, chunks: seq<string>)
    requires Stuck(p)
    ensures FeedAll(c, p, chunks) == (p.(buf := p.buf + Concat(chunks)), true)
    decreases |chunks|
  {
    if chunks == [] {
      assert p.buf + "" == p.buf;
    } else {
      var q := p.(buf := p.buf + chunks[0]);
      assert q.buf[0] == p.buf[0] && q.buf[1] == p.buf[1];
      assert Drain(c, q) == (q, true);
      StuckForEver(c, q, chunks[1..]);
      Assoc(p.buf, chunks[0], Concat(chunks[1..]));
    }
  }
}
