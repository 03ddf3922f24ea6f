/** Exactly which names, file names and content types come back from the header lines of a part. */
module MultipartNames {
  import opened Options
  import opened Text
  import opened Fields
  import opened Multipart
  import opened MultipartLayout
  import opened MultipartProof
  import opened MultipartHeaders

  // ---- What splitting leaves ----

  /** Text that is no longer, and has no characters of its own. */
  ghost predicate Within(p: string, s: string) {
    |p| <= |s| && forall c :: c in p ==> c in s
  }

  lemma {:induction false} TrimLeftWithin(s: string)
    ensures Within(TrimLeft(s), s)
  {
    if s != "" && IsBlank(s[0]) {
      TrimLeftWithin(s[1..]);
    }
  }

  lemma TrimWithin(s: string)
    ensures Within(Trim(s), s)
  {
    TrimLeftWithin(s);
    TrimRightPrefix(TrimLeft(s));
  }

  ghost predicate AllWithin(pieces: seq<string>, d: char, s: string) {
    forall i :: 0 <= i < |pieces| ==> d !in pieces[i] && Within(pieces[i], s)
  }

  lemma PieceAllWithin(a: string, d: char, s: string)
    requires d !in a && Within(a, s)
    ensures AllWithin(Piece(a), d, s)
  {
    TrimWithin(a);
  }

  lemma WithinWider(pieces: seq<string>, d: char, a: string, s: string)
    requires AllWithin(pieces, d, a) && Within(a, s)
    ensures AllWithin(pieces, d, s)
  {
  }

  lemma {:induction false} PiecesWithin(s: string, d: char)
    ensures AllWithin(Pieces(s, d), d, s)
  {
    FindCharFirst(s, d);
    match FindChar(s, d)
    case None => PieceAllWithin(s, d, s);
    case Some(k) =>
      PieceAllWithin(s[..k], d, s);
      PiecesWithin(s[k + 1..], d);
      WithinWider(Pieces(s[k + 1..], d), d, s[k + 1..], s);
  }

  /** The first and the last piece, if they are different ones, and a separator fit into the text. */
  ghost predicate EndsFit(pieces: seq<string>, n: nat) {
    |pieces| >= 2 ==> |pieces[0]| + 1 + |pieces[|pieces| - 1]| <= n
  }

  lemma EndsFitStep(a: string, pieces: seq<string>, n: nat)
    requires EndsFit(pieces, n) && forall i :: 0 <= i < |pieces| ==> |pieces[i]| <= n
    ensures EndsFit(Piece(a) + pieces, |a| + 1 + n)
  {
    TrimWithin(a);
    if Piece(a) == [] {
      assert Piece(a) + pieces == pieces;
    } else {
      assert Piece(a) == [Trim(a)];
    }
  }

  lemma PiecesStep(s: string, d: char, k: nat)
    requires FindChar(s, d) == Some(k)
    ensures k < |s| && Pieces(s, d) == Piece(s[..k]) + Pieces(s[k + 1..], d)
  {
  }

  lemma OnePieceFits(s: string, d: char)
    requires FindChar(s, d).None?
    ensures EndsFit(Pieces(s, d), |s|)
  {
    assert Pieces(s, d) == Piece(s);
  }

  lemma {:induction false} SidesFit(s: string, d: char)
    ensures EndsFit(Pieces(s, d), |s|)
  {
    var found := FindChar(s, d);
    if found.None? {
      OnePieceFits(s, d);
    } else {
      var k := found.value;
      PiecesStep(s, d, k);
      var front, rest := s[..k], s[k + 1..];
      SidesFit(rest, d);
      PiecesWithin(rest, d);
      EndsFitStep(front, Pieces(rest, d), |rest|);
      assert |front| + 1 + |rest| == |s|;
    }
  }

  lemma UnquotedWithin(s: string)
    ensures Within(Unquoted(s), s)
  {
  }

  // ---- What a parameter can be ----

  /** A value without separators; together with its name no longer than a piece. */
  ghost predicate CleanParam(param: (string, string), n: nat) {
    '=' !in param.1 && ';' !in param.1 && (param.1 == "" || |param.0| + 1 + |param.1| <= n)
  }

  ghost predicate CleanParams(params: seq<(string, string)>, n: nat) {
    forall i :: 0 <= i < |params| ==> CleanParam(params[i], n)
  }

  lemma SidesClean(piece: string, n: nat)
    requires ';' !in piece && |piece| <= n
    ensures var sides := Pieces(piece, '=');
            sides != [] ==>
              CleanParam((Unquoted(sides[0]), Unquoted(if |sides| == 1 then "" else sides[|sides| - 1])), n)
  {
    var sides := Pieces(piece, '=');
    PiecesWithin(piece, '=');
    SidesFit(piece, '=');
    if sides != [] {
      UnquotedWithin(sides[0]);
      UnquotedWithin(sides[|sides| - 1]);
    }
  }

  ghost predicate ShortPieces(pieces: seq<string>, n: nat) {
    forall i :: 0 <= i < |pieces| ==> ';' !in pieces[i] && |pieces[i]| <= n
  }

  lemma {:induction false} ParamsClean(pieces: seq<string>, seen: set<string>, n: nat)
    requires ShortPieces(pieces, n)
    ensures CleanParams(DispositionParams(pieces, seen), n)
    decreases |pieces|
  {
    if pieces != [] {
      ParamsClean(pieces[1..], seen, n);
      ParamsClean(pieces[1..], seen + {pieces[0]}, n);
      SidesClean(pieces[0], n);
    }
  }

  lemma TextClean(text: string, seen: set<string>)
    ensures CleanParams(DispositionParams(Pieces(text, ';'), seen), |text|)
  {
    PiecesWithin(text, ';');
    ParamsClean(Pieces(text, ';'), seen, |text|);
  }

  lemma {:induction false} FoundClean(params: seq<(string, string)>, key: string, n: nat)
    requires CleanParams(params, n)
    ensures Lookup(params, key).Some? ==> CleanParam((key, Lookup(params, key).value), n)
  {
    if params != [] && params[0].0 != key {
      FoundClean(params[1..], key, n);
    }
  }

  // ---- The disposition line ----

  lemma NameIsClean(info: FileInfo, file: FileInfo)
    requires ReadDisposition(NO_FILE, DispositionParams(Pieces(ParameterText(info), ';'), {})) == (file, true)
    ensures '=' !in file.name && ';' !in file.name
  {
    var text := ParameterText(info);
    TextClean(text, {});
    FoundClean(DispositionParams(Pieces(text, ';'), {}), "name", |text|);
  }

  /** With a clean name, the other parameters come from the text of the file name. */
  lemma ParamsBehindName(info: FileInfo)
    requires ';' !in info.name && '=' !in info.name && info.filename != ""
    ensures var q := " " + Parameter("filename", info.filename);
            DispositionParams(Pieces(ParameterText(info), ';'), {})
            == [("name", info.name)] + DispositionParams(Pieces(q, ';'), {Parameter("name", info.name)})
  {
    var p, q := Parameter("name", info.name), " " + Parameter("filename", info.filename);
    SeparatorSplit(p, Parameter("filename", info.filename));
    assert ParameterText(info) == p + [';'] + q;
    ParameterPiece("name", info.name);
    PiecesCons(p, ';', q);
    OneParam("name", info.name, Pieces(q, ';'), {});
    assert {} + {p} == {p};
  }

  lemma LookupBehind(key: string, val: string, rest: seq<(string, string)>, other: string)
    requires key != other
    ensures Lookup([(key, val)] + rest, other) == Lookup(rest, other)
  {
    assert ([(key, val)] + rest)[1..] == rest;
  }

  /** A file name is never read from an extended parameter that it contains itself. */
  lemma FilenameIsClean(filename: string, rest: seq<(string, string)>)
    requires CleanParams(rest, |filename| + 12)
    requires filename != "" && ReadFilename("", rest) == (filename, true)
    ensures '=' !in filename && ';' !in filename
  {
    FoundClean(rest, "filename", |filename| + 12);
    FoundClean(rest, "filename*", |filename| + 12);
    assert |"filename*"| == 9 && |"UTF-8''"| == 7;
  }

  /** A disposition line is read back as the name and the file name exactly when neither has a
      separator in it. */
  lemma DispositionIff(info: FileInfo)
    ensures ReadDisposition(NO_FILE, DispositionParams(Pieces(ParameterText(info), ';'), {}))
            == (NO_FILE.(name := info.name, filename := info.filename), true)
       <==> ';' !in info.name && '=' !in info.name && ';' !in info.filename && '=' !in info.filename
  {
    var params := DispositionParams(Pieces(ParameterText(info), ';'), {});
    var file := NO_FILE.(name := info.name, filename := info.filename);
    if ReadDisposition(NO_FILE, params) == (file, true) {
      NameIsClean(info, file);
      if info.filename != "" {
        FilenameReadIsClean(info);
      }
    } else if ';' !in info.name && '=' !in info.name && ';' !in info.filename && '=' !in info.filename {
      ParametersRead(info);
      DispositionRead(NO_FILE, info);
    }
  }

  lemma FilenameReadIsClean(info: FileInfo)
    requires ';' !in info.name && '=' !in info.name && info.filename != ""
    requires ReadDisposition(NO_FILE, DispositionParams(Pieces(ParameterText(info), ';'), {}))
             == (NO_FILE.(name := info.name, filename := info.filename), true)
    ensures '=' !in info.filename && ';' !in info.filename
  {
    var q := " " + Parameter("filename", info.filename);
    var rest := DispositionParams(Pieces(q, ';'), {Parameter("name", info.name)});
    ParamsBehindName(info);
    TextClean(q, {Parameter("name", info.name)});
    assert |q| == |info.filename| + 12;
    KeysDiffer();
    LookupBehind("name", info.name, rest, "filename");
    LookupBehind("name", info.name, rest, "filename*");
    FilenameIsClean(info.filename, rest);
  }

  // ---- Accepted lines ----

  lemma FieldTextPart(a: string, b: string, c: string)
    requires IsFieldText(a + b + c)
    ensures IsFieldText(b)
  {
    forall i | 0 <= i < |b|
      ensures IsBlank(b[i]) || IsFieldVchar(b[i])
    {
      assert (a + b + c)[|a| + i] == b[i];
    }
  }

  lemma ValueIsFieldText(s: string)
    requires IsFieldValue(s)
    ensures IsFieldText(s)
  {
  }

  /** A disposition line is a legal header field exactly when the names are legal in one. */
  lemma DispositionAcceptedIff(info: FileInfo)
    ensures ParseHeader(DispositionLine(info)).Some? <==> IsFieldText(info.name) && IsFieldText(info.filename)
  {
    if IsFieldText(info.name) && IsFieldText(info.filename) {
      DispositionIsField(info);
    } else if ParseHeader(DispositionLine(info)).Some? {
      AcceptedNames(info);
    }
  }

  lemma ParameterTextParts(info: FileInfo)
    ensures ParameterText(info)
         == "name=\"" + info.name +
            ("\"" + if info.filename == "" then "" else "; " + Parameter("filename", info.filename))
    ensures info.filename != "" ==>
            ParameterText(info) == (Parameter("name", info.name) + "; filename=\"") + info.filename + "\""
  {
    assert "name" + "=" + ("\"" + info.name + "\"") == "name=\"" + info.name + "\"";
    assert "; " + ("filename" + "=" + ("\"" + info.filename + "\"")) == "; filename=\"" + info.filename + "\"";
  }

  lemma TextEndsQuoted(info: FileInfo)
    ensures var text := ParameterText(info);
            text != "" && text[|text| - 1] == '"' && Trimmed("form-data; " + text)
  {
    var p, q := Parameter("name", info.name), Parameter("filename", info.filename);
    assert p[|p| - 1] == '"' && q[|q| - 1] == '"';
  }

  lemma AcceptedNames(info: FileInfo)
    requires ParseHeader(DispositionLine(info)).Some?
    ensures IsFieldText(info.name) && IsFieldText(info.filename)
  {
    var text := ParameterText(info);
    Labels(text);
    LiteralsAreFieldText();
    TextEndsQuoted(info);
    ParsePrinted("Content-Disposition", "form-data; " + text);
    ValueIsFieldText("form-data; " + text);
    assert "form-data; " + text == "form-data; " + text + "";
    FieldTextPart("form-data; ", text, "");
    ParameterTextParts(info);
    FieldTextPart("name=\"", info.name,
                  "\"" + if info.filename == "" then "" else "; " + Parameter("filename", info.filename));
    if info.filename != "" {
      FieldTextPart(Parameter("name", info.name) + "; filename=\"", info.filename, "\"");
    }
  }

  /** What one disposition line does to an empty description. */
  lemma DispositionLineOutcome(info: FileInfo)
    ensures ReadHeader(NO_FILE, DispositionLine(info)) ==
            if ParseHeader(DispositionLine(info)).None? then (NO_FILE, false)
            else ReadDisposition(NO_FILE, DispositionParams(Pieces(ParameterText(info), ';'), {}))
  {
    var line, text := DispositionLine(info), ParameterText(info);
    DispositionTextRead(info);
    EighthCharacter(text);
    NotATypeLine(line);
    if ParseHeader(line).Some? {
      ReadDispositionLine(NO_FILE, line, text);
    }
  }

  lemma DispositionLineIff(info: FileInfo)
    ensures ReadHeader(NO_FILE, DispositionLine(info)) == (NO_FILE.(name := info.name, filename := info.filename), true)
       <==> Quotable(info.name) && Quotable(info.filename)
  {
    DispositionLineOutcome(info);
    DispositionAcceptedIff(info);
    DispositionIff(info);
  }

  // ---- The content type line ----

  lemma TypeLineOutcome(file: FileInfo, contentType: string)
    ensures ReadHeader(file, "Content-Type: " + contentType) ==
            if ParseHeader("Content-Type: " + contentType).None? then (file, false)
            else (file.(contentType := Trim(contentType)), true)
  {
    var line := "Content-Type: " + contentType;
    TypeLabels(contentType);
    assert line == "Content-Type:" + (" " + contentType);
    assert line[..13] == "Content-Type:" && line[13..] == " " + contentType;
    assert (" " + contentType)[1..] == contentType;
    TrimLeftShrinks(" " + contentType);
    assert Trim(" " + contentType) == Trim(contentType);
  }

  lemma TypeLineIff(file: FileInfo, contentType: string)
    ensures ReadHeader(file, "Content-Type: " + contentType) == (file.(contentType := contentType), true)
       <==> IsFieldValue(contentType)
  {
    TypeLineOutcome(file, contentType);
    TrimTrimmed(contentType);
    TypeLabels(contentType);
    if Trimmed(contentType) {
      ParsePrinted("Content-Type", contentType);
    } else if IsFieldValue(contentType) {
      FieldValueTrimmed(contentType);
    }
  }

  lemma TypeLineKeepsNames(file: FileInfo, contentType: string)
    ensures var r := ReadHeader(file, "Content-Type: " + contentType).0;
            r.name == file.name && r.filename == file.filename
  {
    TypeLineOutcome(file, contentType);
  }

  // ---- Both lines ----

  lemma ReadOneLine(c: Setup, file: FileInfo, line: string)
    ensures ReadHeaders(c, file, [line]) == c.readHeader(file, line)
  {
    assert [line][1..] == [];
    var r := c.readHeader(file, line);
    assert ReadHeaders(c, r.0, []) == (r.0, true);
    assert r == (r.0, r.1);
  }

  lemma ReadTwoLines(c: Setup, file: FileInfo, line: string, line': string)
    ensures ReadHeaders(c, file, [line, line']) ==
            var (next, ok) := c.readHeader(file, line);
            if ok then c.readHeader(next, line') else (next, false)
  {
    assert [line, line'][1..] == [line'];
    ReadOneLine(c, c.readHeader(file, line).0, line');
  }

  lemma DispositionKeepsType(info: FileInfo)
    ensures ReadHeader(NO_FILE, DispositionLine(info)).0.contentType == ""
  {
    DispositionLineOutcome(info);
  }

  /** The header lines of a part are read back as its description exactly when its name and file name
      are legal in a header field and have no separator, and its content type is a field value. */
  lemma HeaderLinesIff(boundary: string, answer: seq<Event> -> bool, info: FileInfo)
    ensures ReadHeaders(RealSetup(boundary, answer), NO_FILE, HeaderLines(info)) == (info, true) <==> Printable(info)
  {
    var c := RealSetup(boundary, answer);
    var named := NO_FILE.(name := info.name, filename := info.filename);
    HeaderLinesOf(info);
    DispositionLineIff(info);
    if info.contentType == "" {
      ReadOneLine(c, NO_FILE, DispositionLine(info));
      assert named == info;
    } else {
      ReadTwoLines(c, NO_FILE, DispositionLine(info), "Content-Type: " + info.contentType);
      BothLinesIff(info, ReadHeader(NO_FILE, DispositionLine(info)));
    }
  }

  /** The second line sets the content type, and nothing else. */
  lemma BothLinesIff(info: FileInfo, first: (FileInfo, bool))
    requires first == ReadHeader(NO_FILE, DispositionLine(info))
    ensures (if first.1 then ReadHeader(first.0, "Content-Type: " + info.contentType) else (first.0, false))
              == (info, true)
       <==> first == (NO_FILE.(name := info.name, filename := info.filename), true) && IsFieldValue(info.contentType)
  {
    DispositionKeepsType(info);
    TypeLineKeepsNames(first.0, info.contentType);
    TypeLineIff(first.0, info.contentType);
    SameFile(first.0, info);
  }

  lemma SameFile(file: FileInfo, info: FileInfo)
    requires file.contentType == ""
    ensures file.(contentType := info.contentType) == info <==>
              file == NO_FILE.(name := info.name, filename := info.filename)
  {
  }

  /** A part is one that the parser delivers exactly when it is one that a caller can check. */
  lemma WellFormedIff(boundary: string, answer: seq<Event> -> bool, part: Part)
    ensures WellFormed(RealSetup(boundary, answer), part) <==> Carried(boundary, part)
  {
    HeaderLinesIff(boundary, answer, part.info);
    HeaderLinesOf(part.info);
    if Carried(boundary, part) {
      CarriedIsWellFormed(boundary, answer, part);
    } else if WellFormed(RealSetup(boundary, answer), part) {
      LinesShort(RealSetup(boundary, answer), part);
    }
  }

  lemma LinesShort(c: Setup, part: Part)
    requires WellFormed(c, part)
    ensures |DispositionLine(part.info)| < HEADER_MAX_LENGTH
    ensures |"Content-Type: " + part.info.contentType| < HEADER_MAX_LENGTH
  {
    var lines := HeaderLines(part.info);
    HeaderLinesOf(part.info);
    assert GoodLine(lines[0]);
    if part.info.contentType != "" {
      assert GoodLine(lines[1]);
    }
  }

  /** A name with a semicolon does not come back. */
  lemma SemicolonLost(boundary: string, answer: seq<Event> -> bool)
    ensures var info := FileInfo("a;b", "", "");
            ReadHeaders(RealSetup(boundary, answer), NO_FILE, HeaderLines(info)) != (info, true)
  {
    HeaderLinesIff(boundary, answer, FileInfo("a;b", "", ""));
    assert "a;b"[1] == ';';
  }
}
