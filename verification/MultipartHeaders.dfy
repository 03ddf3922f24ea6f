/** The header lines that the serializer prints describe the part they were printed from. */
module MultipartHeaders {
  import opened Options
  import opened Text
  import opened Fields
  import opened Multipart
  import opened MultipartLayout
  import opened MultipartProof

  predicate IsFieldText(s: string) {
    forall i :: 0 <= i < |s| ==> IsBlank(s[i]) || IsFieldVchar(s[i])
  }

  /** What a quoted parameter can carry. */
  predicate Quotable(s: string) {
    IsFieldText(s) && ';' !in s && '=' !in s
  }

  predicate Printable(info: FileInfo) {
    Quotable(info.name) && Quotable(info.filename) && IsFieldValue(info.contentType)
  }

  /** A parameter name as the serializer uses them: not blank at the ends, not quoted. */
  predicate PlainKey(key: string) {
    key != "" && key[0] != '"' && Trimmed(key) && '=' !in key && ';' !in key
  }

  // ---- Splitting ----

  lemma PiecesOne(s: string, d: char)
    requires d !in s && s != "" && Trimmed(s)
    ensures Pieces(s, d) == [s]
  {
    TrimmedPiece(s);
  }

  lemma PiecesCons(a: string, d: char, b: string)
    requires d !in a && a != "" && Trimmed(a)
    ensures Pieces(a + [d] + b, d) == [a] + Pieces(b, d)
  {
    FindCharAt(a, d, b);
    TrimmedPiece(a);
    assert (a + [d] + b)[..|a|] == a;
    assert (a + [d] + b)[|a| + 1..] == b;
  }

  lemma LeadingBlank(s: string, d: char)
    requires s != "" && Trimmed(s) && d !in s && d != ' '
    ensures Pieces(" " + s, d) == [s]
  {
    assert (" " + s)[1..] == s;
    assert TrimLeft(" " + s) == TrimLeft(s) == s;
    TrimRightSame(s);
  }

  lemma ParameterSides(key: string, val: string)
    requires PlainKey(key) && '=' !in val
    ensures Pieces(Parameter(key, val), '=') == [key, Quoted(val)]
  {
    assert Parameter(key, val) == key + ['='] + Quoted(val);
    PiecesCons(key, '=', Quoted(val));
    PiecesOne(Quoted(val), '=');
  }

  lemma UnquotedQuoted(val: string)
    ensures Unquoted(Quoted(val)) == val
  {
  }

  lemma ParameterPiece(key: string, val: string)
    requires PlainKey(key) && ';' !in val
    ensures var p := Parameter(key, val);
            p != "" && Trimmed(p) && ';' !in p && p[0] == key[0]
  {
    var p := Parameter(key, val);
    assert p[|p| - 1] == '"';
  }

  lemma OneParam(key: string, val: string, rest: seq<string>, seen: set<string>)
    requires PlainKey(key) && '=' !in val && Parameter(key, val) !in seen
    ensures DispositionParams([Parameter(key, val)] + rest, seen)
         == [(key, val)] + DispositionParams(rest, seen + {Parameter(key, val)})
  {
    ParameterSides(key, val);
    UnquotedQuoted(val);
    assert ([Parameter(key, val)] + rest)[1..] == rest;
  }

  lemma SingleParam(key: string, val: string)
    requires PlainKey(key) && ';' !in val && '=' !in val
    ensures DispositionParams(Pieces(Parameter(key, val), ';'), {}) == [(key, val)]
  {
    var p := Parameter(key, val);
    ParameterPiece(key, val);
    PiecesOne(p, ';');
    OneParam(key, val, [], {});
    assert [p] + [] == [p];
  }

  lemma TwoPieces(p: string, q: string)
    requires p != "" && Trimmed(p) && ';' !in p && q != "" && Trimmed(q) && ';' !in q
    ensures Pieces(p + "; " + q, ';') == [p, q]
  {
    var b := " " + q;
    LeadingBlank(q, ';');
    SeparatorSplit(p, q);
    PiecesCons(p, ';', b);
  }

  lemma SeparatorSplit(p: string, q: string)
    ensures p + "; " + q == p + [';'] + (" " + q)
  {
    assert "; " == [';'] + " ";
  }

  lemma TwoParams(key: string, val: string, key2: string, val2: string)
    requires PlainKey(key) && PlainKey(key2) && '=' !in val && '=' !in val2
    requires Parameter(key, val) != Parameter(key2, val2)
    ensures DispositionParams([Parameter(key, val), Parameter(key2, val2)], {}) == [(key, val), (key2, val2)]
  {
    var p, q := Parameter(key, val), Parameter(key2, val2);
    OneParam(key, val, [q], {});
    OneParam(key2, val2, [], {p});
    assert [q] + [] == [q];
    assert [p] + [q] == [p, q];
    assert {} + {p} == {p};
  }

  lemma ParametersRead(info: FileInfo)
    requires ';' !in info.name && '=' !in info.name && ';' !in info.filename && '=' !in info.filename
    ensures DispositionParams(Pieces(ParameterText(info), ';'), {})
         == [("name", info.name)] + if info.filename == "" then [] else [("filename", info.filename)]
  {
    var p, q := Parameter("name", info.name), Parameter("filename", info.filename);
    if info.filename == "" {
      assert ParameterText(info) == p;
      SingleParam("name", info.name);
    } else {
      assert ParameterText(info) == p + "; " + q;
      ParameterPiece("name", info.name);
      ParameterPiece("filename", info.filename);
      TwoPieces(p, q);
      TwoParams("name", info.name, "filename", info.filename);
    }
  }

  lemma KeysDiffer()
    ensures "name" != "filename" && "name" != "filename*" && "filename" != "filename*"
  {
    assert |"name"| == 4 && |"filename"| == 8 && |"filename*"| == 9;
  }

  lemma LookupOne(key: string, val: string, other: string)
    requires key != other
    ensures Lookup([(key, val)], key) == Some(val) && Lookup([(key, val)], other) == None
  {
  }

  lemma LookupTwo(key: string, val: string, key2: string, val2: string, other: string)
    requires key != other && key2 != other && key != key2
    ensures var params := [(key, val), (key2, val2)];
            Lookup(params, key) == Some(val) && Lookup(params, key2) == Some(val2) && Lookup(params, other) == None
  {
    assert [(key, val), (key2, val2)][1..] == [(key2, val2)];
    LookupOne(key2, val2, other);
  }

  lemma DispositionRead(file: FileInfo, info: FileInfo)
    requires file.filename == ""
    ensures ReadDisposition(file,
              [("name", info.name)] + if info.filename == "" then [] else [("filename", info.filename)])
         == (file.(name := info.name, filename := info.filename), true)
  {
    KeysDiffer();
    if info.filename == "" {
      assert [("name", info.name)] + [] == [("name", info.name)];
      LookupOne("name", info.name, "filename");
      LookupOne("name", info.name, "filename*");
    } else {
      assert [("name", info.name)] + [("filename", info.filename)]
          == [("name", info.name), ("filename", info.filename)];
      LookupTwo("name", info.name, "filename", info.filename, "filename*");
    }
  }

  // ---- The two header lines ----

  lemma AfterLabelRead(tag: string, text: string)
    requires text != "" && !IsBlank(text[0])
    ensures AfterLabel(tag + " " + text, tag) == Some(text)
  {
    var s := tag + " " + text;
    assert s[..|tag|] == tag;
    assert s[|tag|..] == " " + text;
    TrimLeftShrinks(" " + text);
    assert (" " + text)[1..] == text;
  }

  lemma Labels(text: string)
    ensures "Content-Disposition: form-data; " + text == "Content-Disposition:" + " " + ("form-data;" + " " + text)
    ensures "Content-Disposition: form-data; " + text == FieldLine("Content-Disposition", "form-data; " + text)
    ensures "form-data;" + " " + text == "form-data; " + text
  {
    assert "Content-Disposition: form-data; " == "Content-Disposition:" + " " + "form-data; ";
    assert "form-data;" + " " == "form-data; ";
    assert "Content-Disposition" + ": " == "Content-Disposition:" + " ";
  }

  lemma FieldTextIsValue(head: string, s: string)
    requires |head| >= 2 && IsFieldText(head) && IsFieldVchar(head[0])
    requires IsFieldText(s) && s != "" && IsFieldVchar(s[|s| - 1])
    ensures IsFieldValue(head + s)
  {
    assert IsFieldText(head + s);
  }

  lemma FieldTextConcat(a: string, b: string)
    requires IsFieldText(a) && IsFieldText(b)
    ensures IsFieldText(a + b)
  {
  }

  lemma ParameterIsFieldText(key: string, val: string)
    requires IsFieldText(key) && IsFieldText(val)
    ensures IsFieldText(Parameter(key, val)) && Parameter(key, val) != ""
    ensures Parameter(key, val)[|Parameter(key, val)| - 1] == '"'
  {
  }

  lemma LiteralsAreFieldText()
    ensures IsFieldText("name") && IsFieldText("filename") && IsFieldText("; ") && IsFieldText("form-data; ")
    ensures IsToken("Content-Disposition") && ':' !in "Content-Disposition"
  {
  }

  lemma ParameterTextIsFieldText(info: FileInfo)
    requires IsFieldText(info.name) && IsFieldText(info.filename)
    ensures var text := ParameterText(info);
            IsFieldText(text) && text != "" && text[|text| - 1] == '"'
  {
    LiteralsAreFieldText();
    var p, q := Parameter("name", info.name), Parameter("filename", info.filename);
    ParameterIsFieldText("name", info.name);
    ParameterIsFieldText("filename", info.filename);
    if info.filename != "" {
      FieldTextConcat("; ", q);
      FieldTextConcat(p, "; " + q);
      assert ParameterText(info) == p + ("; " + q);
    } else {
      assert ParameterText(info) == p;
    }
  }

  lemma DispositionIsField(info: FileInfo)
    requires IsFieldText(info.name) && IsFieldText(info.filename)
    ensures ParseHeader(DispositionLine(info)).Some?
  {
    var text := ParameterText(info);
    ParameterTextIsFieldText(info);
    LiteralsAreFieldText();
    FieldTextIsValue("form-data; ", text);
    Labels(text);
    FieldValueTrimmed("form-data; " + text);
    ParsePrinted("Content-Disposition", "form-data; " + text);
  }

  lemma DispositionTextRead(info: FileInfo)
    ensures DispositionText(DispositionLine(info)) == Some(ParameterText(info))
  {
    var text := ParameterText(info);
    Labels(text);
    assert text[0] == 'n';
    AfterLabelRead("Content-Disposition:", "form-data;" + " " + text);
    AfterLabelRead("form-data;", text);
  }

  lemma NotATypeLine(s: string)
    requires |s| > 8 && s[8] == 'D'
    ensures !StartsWithIgnoringCase(s, "Content-Type:")
  {
    if |s| >= 13 {
      assert s[..13][8] == 'D' && "Content-Type:"[8] == 'T';
    }
  }

  /** `ReadHeader` on an accepted line that is not a content type line. */
  lemma ReadDispositionLine(file: FileInfo, line: string, text: string)
    requires ParseHeader(line).Some? && !StartsWithIgnoringCase(line, "Content-Type:")
    requires DispositionText(line) == Some(text)
    ensures ReadHeader(file, line) == ReadDisposition(file, DispositionParams(Pieces(text, ';'), {}))
  {
  }

  lemma EighthCharacter(text: string)
    ensures |"Content-Disposition: form-data; " + text| > 8 && ("Content-Disposition: form-data; " + text)[8] == 'D'
  {
  }

  lemma DispositionLineRead(info: FileInfo)
    requires Quotable(info.name) && Quotable(info.filename)
    ensures ReadHeader(NO_FILE, DispositionLine(info))
         == (NO_FILE.(name := info.name, filename := info.filename), true)
  {
    var line, text := DispositionLine(info), ParameterText(info);
    DispositionIsField(info);
    DispositionTextRead(info);
    EighthCharacter(text);
    NotATypeLine(line);
    ReadDispositionLine(NO_FILE, line, text);
    ParametersRead(info);
    DispositionRead(NO_FILE, info);
  }

  lemma TypeLabels(contentType: string)
    ensures "Content-Type: " + contentType == "Content-Type:" + " " + contentType
    ensures "Content-Type: " + contentType == FieldLine("Content-Type", contentType)
    ensures IsToken("Content-Type") && ':' !in "Content-Type"
  {
    assert "Content-Type" + ": " == "Content-Type:" + " " == "Content-Type: ";
  }

  lemma ReadTypeLine(file: FileInfo, line: string, contentType: string)
    requires ParseHeader(line).Some? && AfterLabel(line, "Content-Type:") == Some(contentType)
    requires Trimmed(contentType)
    ensures ReadHeader(file, line) == (file.(contentType := contentType), true)
  {
    TrimRightSame(contentType);
  }

  lemma TypeLineRead(file: FileInfo, contentType: string)
    requires contentType != "" && IsFieldValue(contentType)
    ensures ReadHeader(file, "Content-Type: " + contentType) == (file.(contentType := contentType), true)
  {
    FieldValueTrimmed(contentType);
    TypeLabels(contentType);
    ParsePrinted("Content-Type", contentType);
    AfterLabelRead("Content-Type:", contentType);
    ReadTypeLine(file, "Content-Type: " + contentType, contentType);
  }

  lemma ReadOne(c: Setup, file: FileInfo, line: string, file': FileInfo)
    requires c.readHeader(file, line) == (file', true)
    ensures ReadHeaders(c, file, [line]) == (file', true)
  {
    assert [line][1..] == [];
  }

  lemma ReadTwo(c: Setup, file: FileInfo, line: string, file': FileInfo, line': string, file'': FileInfo)
    requires c.readHeader(file, line) == (file', true) && c.readHeader(file', line') == (file'', true)
    ensures ReadHeaders(c, file, [line, line']) == (file'', true)
  {
    assert [line, line'][1..] == [line'];
    ReadOne(c, file', line', file'');
  }

  lemma HeaderLinesOf(info: FileInfo)
    ensures HeaderLines(info) == if info.contentType == "" then [DispositionLine(info)]
                                 else [DispositionLine(info), "Content-Type: " + info.contentType]
  {
  }

  /** The header lines of a printable part are read back as exactly that part's description. */
  lemma HeaderLinesRoundTrip(boundary: string, answer: seq<Event> -> bool, info: FileInfo)
    requires Printable(info)
    ensures ReadHeaders(RealSetup(boundary, answer), NO_FILE, HeaderLines(info)) == (info, true)
  {
    var c := RealSetup(boundary, answer);
    var named := NO_FILE.(name := info.name, filename := info.filename);
    HeaderLinesOf(info);
    DispositionLineRead(info);
    if info.contentType == "" {
      assert named == info;
      ReadOne(c, NO_FILE, DispositionLine(info), named);
    } else {
      TypeLineRead(named, info.contentType);
      ReadTwo(c, NO_FILE, DispositionLine(info), named, "Content-Type: " + info.contentType, info);
    }
  }

  // ---- The round trip, in terms a caller can check ----

  /** What a caller must respect for a part to survive: a printable description whose lines are
      shorter than the header limit, and content that hides no delimiter. */
  predicate Carried(boundary: string, part: Part) {
    && Printable(part.info)
    && |DispositionLine(part.info)| < HEADER_MAX_LENGTH
    && |"Content-Type: " + part.info.contentType| < HEADER_MAX_LENGTH
    && FindFrom(part.content, CrlfDashBoundary(boundary), 0).None?
  }

  lemma FieldTextHasNoCrlf(s: string)
    requires IsFieldText(s)
    ensures FindFrom(s, CRLF, 0).None?
  {
    NoCrlf(s);
  }

  lemma TypeLineIsFieldText(contentType: string)
    requires IsFieldValue(contentType)
    ensures IsFieldText("Content-Type: " + contentType)
  {
    assert IsFieldText("Content-Type: ");
    FieldTextConcat("Content-Type: ", contentType);
  }

  lemma DispositionLineIsFieldText(info: FileInfo)
    requires IsFieldText(info.name) && IsFieldText(info.filename)
    ensures IsFieldText(DispositionLine(info)) && DispositionLine(info) != ""
  {
    assert IsFieldText("Content-Disposition: form-data; ");
    ParameterTextIsFieldText(info);
    FieldTextConcat("Content-Disposition: form-data; ", ParameterText(info));
  }

  lemma DispositionGood(info: FileInfo)
    requires IsFieldText(info.name) && IsFieldText(info.filename) && |DispositionLine(info)| < HEADER_MAX_LENGTH
    ensures GoodLine(DispositionLine(info))
  {
    DispositionLineIsFieldText(info);
    FieldTextHasNoCrlf(DispositionLine(info));
  }

  lemma TypeGood(contentType: string)
    requires IsFieldValue(contentType) && |"Content-Type: " + contentType| < HEADER_MAX_LENGTH
    ensures GoodLine("Content-Type: " + contentType)
  {
    TypeLineIsFieldText(contentType);
    FieldTextHasNoCrlf("Content-Type: " + contentType);
  }

  lemma LinesGood(boundary: string, part: Part)
    requires Carried(boundary, part)
    ensures forall line :: line in HeaderLines(part.info) ==> GoodLine(line)
  {
    DispositionGood(part.info);
    TypeGood(part.info.contentType);
  }

  lemma CarriedIsWellFormed(boundary: string, answer: seq<Event> -> bool, part: Part)
    requires Carried(boundary, part)
    ensures WellFormed(RealSetup(boundary, answer), part)
  {
    HeaderLinesRoundTrip(boundary, answer, part.info);
    LinesGood(boundary, part);
  }

  /** Multipart round trip: for a valid boundary, parts that can be carried, callbacks that accept,
      and any chunks that do not cut the opening delimiter line, the parser delivers the parts. */
  lemma FormDataRoundTrip(boundary: string, answer: seq<Event> -> bool, parts: seq<Part>, chunks: seq<string>)
    requires ValidBoundary(boundary) && (forall es :: answer(es)) && parts != []
    requires forall part :: part in parts ==> Carried(boundary, part)
    requires Concat(chunks) == Serialize(parts, boundary)
    requires OpeningArrivesWhole(boundary, chunks)
    ensures var (p, ok) := FeedAll(RealSetup(boundary, answer), INITIAL, chunks);
            ok && p.isValid && Delivered(p.events) == parts
  {
    var c := RealSetup(boundary, answer);
    forall part | part in parts
      ensures WellFormed(c, part)
    {
      CarriedIsWellFormed(boundary, answer, part);
    }
    ParseInvertsSerialize(c, parts, chunks);
  }
}
