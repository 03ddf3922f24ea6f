/** The incremental parser with its sliding buffer, proved to compute `Multipart.Feed`. */
module MultipartParser {
  import opened Text
  import opened Fields
  import opened Multipart

  class MultipartFormDataParser {
    const setup: Setup
    var state: nat
    var isValid: bool
    var file: FileInfo
    var events: seq<Event>
    // The live bytes are buf[spos..epos].
    var buf: array<char>
    var spos: nat
    var epos: nat

    ghost predicate Valid()
      reads this
    {
      state <= 4 && spos <= epos <= buf.Length
    }

    ghost function Snapshot(): Parser
      requires Valid()
      reads this, buf
    {
      Parser(state, isValid, file, buf[spos..epos], events)
    }

    constructor (setup: Setup)
      ensures Valid() && fresh(buf) && this.setup == setup
      ensures Snapshot() == INITIAL
    {
      this.setup := setup;
      state, isValid, file, events := 0, false, NO_FILE, [];
      buf := new char[0];
      spos, epos := 0, 0;
    }

    function BufSize(): nat
      requires Valid()
      reads this
    {
      epos - spos
    }

    /** `start_with(buf_, pos, epos, s)`. */
    method StartWith(pos: nat, s: string) returns (r: bool)
      requires Valid() && spos <= pos <= epos
      ensures r <==> s <= buf[pos..epos]
    {
      if epos - pos < |s| { return false; }
      for i := 0 to |s|
        invariant buf[pos..pos + i] == s[..i]
      {
        if buf[pos + i] != s[i] {
          assert buf[pos..epos][i] != s[i];
          return false;
        }
      }
      assert buf[pos..epos][..|s|] == buf[pos..pos + |s|];
      return true;
    }

    method BufFind(s: string) returns (r: nat)
      requires Valid() && s != ""
      ensures r == Index(buf[spos..epos], s)
    {
      ghost var live := buf[spos..epos];
      var off := spos;
      while off < epos
        invariant spos <= off <= epos && NoneBefore(live, s, off - spos)
      {
        var pos := off;
        while true
          invariant off <= pos <= epos && NoneBefore(live, s, pos - spos)
          decreases epos - pos
        {
          if pos == epos {
            NothingFound(live, s, pos - spos);
            return BufSize();
          }
          if buf[pos] == s[0] { break; }
          NotHere(live, s, pos - spos);
          pos := pos + 1;
        }
        if |s| > epos - pos {
          NothingFound(live, s, pos - spos);
          return BufSize();
        }
        var here := StartWith(pos, s);
        assert live[pos - spos..] == buf[pos..epos];
        StartsThere(live, s, pos - spos);
        if here { return pos - spos; }
        off := pos + 1;
      }
      NothingFound(live, s, off - spos);
      return BufSize();
    }

    /** Slides the live bytes to the front, grows the buffer if needed, and appends `data`. */
    method BufAppend(data: string)
      requires Valid()
      modifies this`buf, this`spos, this`epos, buf
      ensures Valid() && (buf == old(buf) || fresh(buf))
      ensures buf[spos..epos] == old(buf[spos..epos]) + data
    {
      var remaining := BufSize();
      ghost var live := buf[spos..epos];
      if remaining > 0 && spos > 0 {
        SlideToFront(remaining);
      }
      assert buf[..remaining] == live;
      spos := 0;
      epos := remaining;
      if remaining + |data| > buf.Length {
        Grow(remaining + |data|, remaining);
      }
      assert buf[..epos] == live;
      CopyIn(data);
      epos := epos + |data|;
      assert buf[spos..epos] == buf[..epos];
    }

    method CopyIn(data: string)
      requires Valid() && spos == 0 && epos + |data| <= buf.Length
      modifies buf
      ensures buf[..epos + |data|] == old(buf[..epos]) + data
    {
      for i := 0 to |data|
        invariant buf[..epos] == old(buf[..epos])
        invariant buf[epos..epos + i] == data[..i]
      {
        buf[epos + i] := data[i];
      }
      assert buf[..epos + |data|] == buf[..epos] + buf[epos..epos + |data|];
    }

    method SlideToFront(remaining: nat)
      requires Valid() && remaining == BufSize() && spos > 0
      modifies buf
      ensures buf[..remaining] == old(buf[spos..epos])
    {
      ghost var live := buf[spos..epos];
      for i := 0 to remaining
        invariant buf[..i] == live[..i]
        invariant buf[spos + i..epos] == live[i..]
      {
        assert buf[spos + i] == buf[spos + i..epos][0];
        buf[i] := buf[spos + i];
        assert buf[spos + i + 1..epos] == live[i..][1..];
      }
    }

    /** `std::string::resize` to a larger size; the first `keep` characters are the live ones. */
    method Grow(size: nat, ghost keep: nat)
      requires Valid() && keep <= buf.Length <= size
      modifies this`buf
      ensures Valid() && fresh(buf) && buf.Length == size
      ensures buf[..keep] == old(buf[..keep])
    {
      var a := buf;
      var bigger := new char[size](_ => '\0');
      for i := 0 to a.Length
        invariant bigger[..i] == a[..i]
      {
        bigger[i] := a[i];
      }
      assert bigger[..keep] == bigger[..a.Length][..keep] && a[..keep] == a[..a.Length][..keep];
      buf := bigger;
    }

    method BufErase(size: nat)
      requires Valid() && size <= BufSize()
      modifies this`spos
      ensures Valid()
      ensures buf[spos..epos] == old(buf[spos..epos])[size..]
    {
      spos := spos + size;
    }

    /** The empty line: the part begins. */
    method EndHeaders() returns (ok: bool)
      requires Valid() && state == 2 && Index(buf[spos..epos], CRLF) == 0 < BufSize()
      modifies this`state, this`isValid, this`events, this`spos
      ensures Valid() && (Snapshot(), ok) == DrainHeaders(setup, old(Snapshot()))
    {
      HeaderRead(setup, Snapshot(), 0);
      events := events + [PartBegins(file)];
      if !setup.answer(events) {
        isValid := false;
        return false;
      }
      BufErase(|CRLF|);
      state := 3;
      return true;
    }

    /** One header line, `pos` characters long. */
    method ReadLine(pos: nat) returns (ok: bool)
      requires Valid() && state == 2 && 0 < pos == Index(buf[spos..epos], CRLF) < BufSize()
      modifies this`isValid, this`file, this`spos
      ensures Valid()
      ensures if ok
              then BufSize() < old(BufSize()) && DrainHeaders(setup, Snapshot()) == DrainHeaders(setup, old(Snapshot()))
              else (Snapshot(), ok) == DrainHeaders(setup, old(Snapshot()))
    {
      ghost var p := Snapshot();
      HeaderRead(setup, p, pos);
      var header := buf[spos..spos + pos];
      assert header == p.buf[..pos];
      var (next, fine) := setup.readHeader(file, header);
      file := next;
      if !fine {
        isValid := false;
        return false;
      }
      BufErase(pos + |CRLF|);
      assert Snapshot() == p.(file := next, buf := p.buf[pos + |CRLF|..]);
      return true;
    }

    /** The inner loop of the header state. */
    method ParseHeaders() returns (ok: bool)
      requires Valid() && state == 2
      modifies this`state, this`isValid, this`file, this`events, this`spos
      ensures Valid()
      ensures (Snapshot(), ok) == DrainHeaders(setup, old(Snapshot()))
    {
      var pos := BufFind(CRLF);
      while pos < BufSize()
        invariant Valid() && state == 2
        invariant pos == Index(buf[spos..epos], CRLF)
        invariant DrainHeaders(setup, Snapshot()) == DrainHeaders(setup, old(Snapshot()))
        decreases BufSize()
      {
        if pos == 0 {
          ok := EndHeaders();
          return ok;
        }
        ok := ReadLine(pos);
        if !ok { return false; }
        pos := BufFind(CRLF);
      }
      return true;
    }

    ghost function Measure(): nat
      requires Valid()
      reads this
    {
      2 * BufSize() + if state == 1 then 1 else 0
    }

    /** What a turn of the main loop promises: the loop goes on towards the same result, or stops with it. */
    twostate predicate Turn(more: bool, ok: bool)
      requires old(Valid()) && Valid()
      reads this, buf
    {
      if more
      then Drain(setup, Snapshot()) == Drain(setup, old(Snapshot())) && Measure() < old(Measure())
      else (Snapshot(), ok) == Drain(setup, old(Snapshot()))
    }

    method InitialBoundary() returns (more: bool, ok: bool)
      requires Valid() && state == 0 && BufSize() > 0
      modifies this`state, this`spos
      ensures Valid() && Turn(more, ok)
    {
      var opening := DashBoundaryCrlf(setup.boundary);
      var at := BufFind(opening);
      BufErase(at);
      if |opening| > BufSize() { return false, true; }
      var starts := StartWith(spos, opening);
      if !starts { return false, false; }
      BufErase(|opening|);
      state := 1;
      return true, true;
    }

    method NewEntry() returns (more: bool, ok: bool)
      requires Valid() && state == 1 && BufSize() > 0
      modifies this`state, this`file
      ensures Valid() && Turn(more, ok)
    {
      file := NO_FILE;
      state := 2;
      return true, true;
    }

    method Headers() returns (more: bool, ok: bool)
      requires Valid() && state == 2 && BufSize() > 0
      modifies this`state, this`isValid, this`file, this`events, this`spos
      ensures Valid() && Turn(more, ok)
    {
      var pos := BufFind(CRLF);
      if pos > HEADER_MAX_LENGTH { return false, false; }
      var fine := ParseHeaders();
      if !fine { return false, false; }
      return state == 3, true;
    }

    method Body() returns (more: bool, ok: bool)
      requires Valid() && state == 3 && BufSize() > 0
      modifies this`state, this`isValid, this`events, this`spos
      ensures Valid() && Turn(more, ok)
    {
      var delimiter := CrlfDashBoundary(setup.boundary);
      BodyRead(setup, Snapshot(), delimiter);
      if |delimiter| > BufSize() { return false, true; }
      var pos := BufFind(delimiter);
      if pos < BufSize() {
        more := EndBody(pos, delimiter);
        return more, more;
      }
      ok := HandOut(BufSize() - |delimiter|);
      return false, ok;
    }

    /** Hands out content, and keeps what could be the start of a delimiter. */
    method HandOut(len: nat) returns (ok: bool)
      requires Valid() && state == 3 && len <= BufSize()
      modifies this`isValid, this`events, this`spos
      ensures Valid() && (Snapshot(), ok) == AfterContent(setup, old(Snapshot()), len)
    {
      if len > 0 {
        ok := Emit(len, 0);
      } else {
        ok := true;
      }
    }

    /** Hands out the content in front of the delimiter. */
    method EndBody(pos: nat, delimiter: string) returns (more: bool)
      requires Valid() && state == 3 && pos + |delimiter| <= BufSize() && delimiter != ""
      modifies this`state, this`isValid, this`events, this`spos
      ensures Valid() && BufSize() <= old(BufSize()) && (more ==> BufSize() < old(BufSize()) && state == 4)
      ensures (Snapshot(), more) == AfterBody(setup, old(Snapshot()), pos, |delimiter|)
    {
      more := Emit(pos, |delimiter|);
      if more {
        state := 4;
      }
    }

    /** Hands the first `len` bytes to the content callback and drops them and `skip` more. */
    method Emit(len: nat, skip: nat) returns (ok: bool)
      requires Valid() && len + skip <= BufSize()
      modifies this`isValid, this`events, this`spos
      ensures Valid() && events == old(events) + [Content(old(buf[spos..epos])[..len])]
      ensures ok == setup.answer(events)
      ensures isValid == (ok && old(isValid))
      ensures buf[spos..epos] == if ok then old(buf[spos..epos])[len + skip..] else old(buf[spos..epos])
    {
      var data := buf[spos..spos + len];
      assert data == buf[spos..epos][..len];
      events := events + [Content(data)];
      ok := setup.answer(events);
      if !ok {
        isValid := false;
        return;
      }
      BufErase(len + skip);
    }

    method Boundary() returns (more: bool, ok: bool)
      requires Valid() && state == 4 && BufSize() > 0
      modifies this`state, this`isValid, this`spos
      ensures Valid() && Turn(more, ok)
    {
      if |CRLF| > BufSize() { return false, true; }
      var next := StartWith(spos, CRLF);
      if next {
        BufErase(|CRLF|);
        state := 1;
        return true, true;
      }
      var closing := StartWith(spos, "--");
      if closing {
        BufErase(2);
        isValid := true;
        BufErase(BufSize());
      }
      return false, true;
    }

    /** The `switch` on the state. */
    method TakeTurn() returns (more: bool, ok: bool)
      requires Valid() && BufSize() > 0
      modifies this`state, this`isValid, this`file, this`events, this`spos
      ensures Valid() && Turn(more, ok)
    {
      match state
      case 0 => more, ok := InitialBoundary();
      case 1 => more, ok := NewEntry();
      case 2 => more, ok := Headers();
      case 3 => more, ok := Body();
      case _ => more, ok := Boundary();
    }

    /** The main loop. */
    method Run() returns (ok: bool)
      requires Valid()
      modifies this`state, this`isValid, this`file, this`events, this`spos
      ensures Valid()
      ensures (Snapshot(), ok) == Drain(setup, old(Snapshot()))
    {
      while BufSize() > 0
        invariant Valid()
        invariant Drain(setup, Snapshot()) == Drain(setup, old(Snapshot()))
        decreases Measure()
      {
        var more, fine := TakeTurn();
        if !more { return fine; }
      }
      return true;
    }

    /** `parse`: takes in a chunk and runs the state machine until it needs more bytes. */
    method Parse(data: string) returns (ok: bool)
      requires Valid()
      modifies this, buf
      ensures Valid() && (buf == old(buf) || fresh(buf))
      ensures (Snapshot(), ok) == Feed(setup, old(Snapshot()), data)
    {
      BufAppend(data);
      ok := Run();
    }
  }

  ghost predicate NoneBefore(live: string, s: string, k: nat) {
    forall j :: 0 <= j < k ==> !OccursAt(live, s, j)
  }

  lemma NothingFound(live: string, s: string, k: nat)
    requires s != "" && NoneBefore(live, s, k) && k <= |live| < k + |s|
    ensures Index(live, s) == |live|
  {
  }

  lemma StartsThere(live: string, s: string, k: nat)
    requires NoneBefore(live, s, k) && k + |s| <= |live| && s != ""
    ensures if s <= live[k..] then Index(live, s) == k else NoneBefore(live, s, k + 1)
  {
    assert live[k..k + |s|] == live[k..][..|s|];
    assert s <= live[k..] <==> OccursAt(live, s, k);
  }

  lemma NotHere(live: string, s: string, k: nat)
    requires s != "" && k < |live| && live[k] != s[0] && NoneBefore(live, s, k)
    ensures NoneBefore(live, s, k + 1)
  {
    if k + |s| <= |live| {
      assert live[k..k + |s|][0] == live[k];
    }
  }

  /** One round of the loop over header lines. */
  lemma HeaderRead(c: Setup, p: Parser, pos: nat)
    requires p.state == 2 && pos == Index(p.buf, CRLF) < |p.buf|
    ensures pos + |CRLF| <= |p.buf|
    ensures DrainHeaders(c, p) ==
            if pos == 0 then
              var q := p.(events := p.events + [PartBegins(p.file)]);
              if c.answer(q.events) then (q.(buf := p.buf[|CRLF|..], state := 3), true)
              else (q.(isValid := false), false)
            else
              var (file, ok) := c.readHeader(p.file, p.buf[..pos]);
              if ok then DrainHeaders(c, p.(file := file, buf := p.buf[pos + |CRLF|..]))
              else (p.(file := file, isValid := false), false)
  {
  }

  /** The content in front of the delimiter has been handed out. */
  function AfterBody(c: Setup, p: Parser, pos: nat, skip: nat): (Parser, bool)
    requires pos + skip <= |p.buf|
  {
    var q := p.(events := p.events + [Content(p.buf[..pos])]);
    if c.answer(q.events) then (q.(buf := p.buf[pos + skip..], state := 4), true) else (q.(isValid := false), false)
  }

  /** The first `len` bytes have been handed out, if any. */
  function AfterContent(c: Setup, p: Parser, len: nat): (Parser, bool)
    requires len <= |p.buf|
  {
    if len == 0 then (p, true)
    else
      var q := p.(events := p.events + [Content(p.buf[..len])]);
      if c.answer(q.events) then (q.(buf := p.buf[len..]), true) else (q.(isValid := false), false)
  }

  /** One turn of the main loop over content. */
  lemma BodyRead(c: Setup, p: Parser, delimiter: string)
    requires p.state == 3 && p.buf != "" && delimiter == CrlfDashBoundary(c.boundary)
    ensures |delimiter| > |p.buf| ==> Drain(c, p) == (p, true)
    ensures |delimiter| <= |p.buf| && Index(p.buf, delimiter) < |p.buf| ==>
              var pos := Index(p.buf, delimiter);
              && pos + |delimiter| <= |p.buf|
              && Drain(c, p) == var (q, ok) := AfterBody(c, p, pos, |delimiter|); if ok then Drain(c, q) else (q, false)
    ensures |delimiter| <= |p.buf| && Index(p.buf, delimiter) == |p.buf| ==>
              Drain(c, p) == AfterContent(c, p, |p.buf| - |delimiter|)
  {
  }
}
