/** What the header reader of the multipart parser makes of any header field, in terms of its name and value, and
    forms whose parts have fields of other names among the ones that describe them. */
module MultipartFields {
  import opened Options
  import opened Text
  import opened Fields
  import opened UrlCodec
  import opened Multipart
  import opened MultipartLayout
  import opened MultipartHeaders
  import opened MultipartNames
  import QueryCodec

  type Field = (string, string)

  predicate Legal(f: Field) { IsToken(f.0) && IsFieldValue(f.1) }

  function LineOf(f: Field): string { FieldLine(f.0, f.1) }

  predicate Named(f: Field, name: string) { EqualIgnoringCase(f.0, name) }

  /** A field that describes the file of a form: a Content-Disposition of that kind. */
  predicate DescribesFile(f: Field) {
    Named(f, "Content-Disposition") && StartsWithIgnoringCase(f.1, "form-data;")
  }

  /** A field that says nothing about the part. */
  predicate Other(f: Field) { !Named(f, "Content-Type") && !DescribesFile(f) }

  // ---- One field ----

  lemma ColonsMatch(line: string, tag: string, i: nat)
    requires StartsWithIgnoringCase(line, tag) && i < |tag|
    ensures line[i] == ':' <==> tag[i] == ':'
  {
    assert ToLower(line[..|tag|][i]) == ToLower(tag[i]);
  }

  /** A matched label ends where the name of the field does. */
  lemma LabelEnds(f: Field, name: string)
    requires ':' !in f.0 && ':' !in name && StartsWithIgnoringCase(LineOf(f), name + ":")
    ensures |f.0| == |name|
  {
    var line, tag := LineOf(f), name + ":";
    ColonsMatch(line, tag, |name|);
    assert |f.0| <= |name|;
    ColonsMatch(line, tag, |f.0|);
  }

  /** A label is matched by a field if and only if it is its name, in any case. */
  lemma LabelIsName(f: Field, name: string)
    requires ':' !in f.0 && ':' !in name
    ensures StartsWithIgnoringCase(LineOf(f), name + ":") <==> Named(f, name)
  {
    var line, tag := LineOf(f), name + ":";
    if StartsWithIgnoringCase(line, tag) {
      LabelEnds(f, name);
    }
    if |f.0| == |name| {
      assert forall i :: 0 <= i < |name| ==> line[..|tag|][i] == f.0[i] && tag[i] == name[i];
      assert line[..|tag|][|name|] == ':' == tag[|name|];
    }
  }

  lemma ValueBehind(f: Field, name: string)
    requires |f.0| == |name| && Trimmed(f.1)
    ensures |LineOf(f)| >= |name + ":"| && TrimLeft(LineOf(f)[|name + ":"|..]) == f.1
    ensures Trim(LineOf(f)[|name + ":"|..]) == f.1
  {
    assert LineOf(f)[|name + ":"|..] == " " + f.1;
    TrimLeftShrinks(" " + f.1);
    assert (" " + f.1)[1..] == f.1;
    TrimRightSame(f.1);
  }

  lemma LegalAccepted(f: Field)
    requires ':' !in f.0 && Trimmed(f.1)
    ensures ParseHeader(LineOf(f)).Some? <==> Legal(f)
  {
    ParsePrinted(f.0, f.1);
  }

  /** An illegal field ends the parse, */
  lemma IllegalRefused(file: FileInfo, f: Field)
    requires ':' !in f.0 && Trimmed(f.1) && !Legal(f)
    ensures ReadHeader(file, LineOf(f)) == (file, false)
  {
    LegalAccepted(f);
  }

  /** the content type is the value of its field, */
  lemma TypeFieldRead(file: FileInfo, f: Field)
    requires Legal(f) && Named(f, "Content-Type")
    ensures ReadHeader(file, LineOf(f)) == (file.(contentType := f.1), true)
  {
    FieldValueTrimmed(f.1);
    LegalAccepted(f);
    LabelIsName(f, "Content-Type");
    ValueBehind(f, "Content-Type");
    assert "Content-Type" + ":" == "Content-Type:";
  }

  /** a disposition of form data is read for its parameters, */
  lemma DispositionFieldRead(file: FileInfo, f: Field)
    requires Legal(f) && DescribesFile(f)
    ensures ReadHeader(file, LineOf(f))
         == ReadDisposition(file, DispositionParams(Pieces(TrimLeft(f.1[|"form-data;"|..]), ';'), {}))
  {
    FieldValueTrimmed(f.1);
    LegalAccepted(f);
    NotType(f);
    LabelIsName(f, "Content-Disposition");
    ValueBehind(f, "Content-Disposition");
    assert "Content-Disposition" + ":" == "Content-Disposition:";
    ReadDispositionLine(file, LineOf(f), TrimLeft(f.1[|"form-data;"|..]));
  }

  lemma NotType(f: Field)
    requires ':' !in f.0 && !Named(f, "Content-Type")
    ensures !StartsWithIgnoringCase(LineOf(f), "Content-Type:")
  {
    LabelIsName(f, "Content-Type");
    assert "Content-Type" + ":" == "Content-Type:";
  }

  lemma NamesDiffer(f: Field)
    requires Named(f, "Content-Disposition")
    ensures !Named(f, "Content-Type")
  {
    assert |"Content-Disposition"| == 19 && |"Content-Type"| == 12;
  }

  /** and any other field changes nothing, and the parse goes on. */
  lemma OtherFieldIgnored(file: FileInfo, f: Field)
    requires Legal(f) && Other(f)
    ensures ReadHeader(file, LineOf(f)) == (file, true)
  {
    FieldValueTrimmed(f.1);
    LegalAccepted(f);
    NotType(f);
    LabelIsName(f, "Content-Disposition");
    assert "Content-Disposition" + ":" == "Content-Disposition:";
    if Named(f, "Content-Disposition") {
      ValueBehind(f, "Content-Disposition");
    }
  }

  // ---- Parameters that the serializer does not print ----

  /** An unquoted value: visible characters without separators. */
  predicate Unspaced(x: string) {
    x != "" && x[0] != '"' && forall i :: 0 <= i < |x| ==> IsFieldVchar(x[i]) && x[i] != ';' && x[i] != '='
  }

  /** Name and extended file name (section 5 of RFC 5987). */
  function ExtendedText(name: string, x: string): string { Parameter("name", name) + "; filename*=" + x }

  function ExtendedField(name: string, x: string): Field {
    ("Content-Disposition", "form-data; " + ExtendedText(name, x))
  }

  lemma UnspacedFits(x: string)
    requires Unspaced(x)
    ensures Trimmed(x) && '=' !in x && ';' !in x && Unquoted(x) == x
  {
  }

  lemma TwoSides(key: string, x: string)
    requires key != "" && Trimmed(key) && '=' !in key && x != "" && Trimmed(x) && '=' !in x
    ensures Pieces(key + ['='] + x, '=') == [key, x]
  {
    PiecesCons(key, '=', x);
    PiecesOne(x, '=');
  }

  lemma StarKey()
    ensures PlainKey("filename*")
  {
    assert "filename*"[0] == 'f' && "filename*"[8] == '*';
  }

  lemma ExtendedShape(name: string, x: string)
    ensures "filename*=" + x == "filename*" + ['='] + x
    ensures ExtendedText(name, x) == Parameter("name", name) + "; " + ("filename*" + ['='] + x)
  {
    assert "; filename*=" + x == "; " + ("filename*" + ['='] + x);
  }

  /** A parameter without quotes. */
  lemma BareParam(key: string, x: string, seen: set<string>)
    requires PlainKey(key) && Unspaced(x) && key + ['='] + x !in seen
    ensures DispositionParams([key + ['='] + x], seen) == [(key, x)]
  {
    UnspacedFits(x);
    TwoSides(key, x);
    assert [key + ['='] + x][1..] == [];
  }

  lemma BarePiece(key: string, x: string)
    requires PlainKey(key) && Unspaced(x)
    ensures var p := key + ['='] + x; p != "" && Trimmed(p) && ';' !in p && p[0] == key[0]
  {
    UnspacedFits(x);
  }

  lemma ExtendedParams(name: string, x: string)
    requires ';' !in name && '=' !in name && Unspaced(x)
    ensures DispositionParams(Pieces(ExtendedText(name, x), ';'), {}) == [("name", name), ("filename*", x)]
  {
    var p, q := Parameter("name", name), "filename*" + ['='] + x;
    ExtendedShape(name, x);
    StarKey();
    ParameterPiece("name", name);
    BarePiece("filename*", x);
    TwoPieces(p, q);
    NameThenBare(name, "filename*", x, p, q);
  }

  lemma NameThenBare(name: string, key: string, x: string, p: string, q: string)
    requires '=' !in name && PlainKey(key) && Unspaced(x) && key[0] != 'n'
    requires p == Parameter("name", name) && q == key + ['='] + x
    ensures DispositionParams([p, q], {}) == [("name", name), (key, x)]
  {
    assert p[0] == 'n' && q[0] == key[0];
    OneParam("name", name, [q], {});
    BareParam(key, x, {p});
    assert [p] + [q] == [p, q];
    assert {} + {p} == {p};
  }

  lemma ExtendedLegal(name: string, x: string)
    requires IsFieldText(name) && Unspaced(x)
    ensures Legal(ExtendedField(name, x))
  {
    LiteralsAreFieldText();
    ParameterIsFieldText("name", name);
    FieldTextConcat(Parameter("name", name), "; filename*=" + x);
    assert Parameter("name", name) + ("; filename*=" + x) == ExtendedText(name, x);
    FieldTextIsValue("form-data; ", ExtendedText(name, x));
  }

  lemma FormDataLabel(text: string)
    ensures StartsWithIgnoringCase("form-data; " + text, "form-data;")
    ensures ("form-data; " + text)[|"form-data;"|..] == " " + text
  {
    assert ("form-data; " + text)[..10] == "form-data;";
  }

  /** What an extended file name does: in UTF-8, in any case of that label, with a text behind it, the text is
      decoded; otherwise the parse ends. */
  lemma ExtendedNameRead(file: FileInfo, name: string, x: string)
    requires Quotable(name) && Unspaced(x)
    ensures ReadHeader(file, LineOf(ExtendedField(name, x))) ==
            if StartsWithIgnoringCase(x, "UTF-8''") && |x| > 7
            then (file.(name := name, filename := DecodeUrl(x[7..], false)), true)
            else (file.(name := name), false)
  {
    var text := ExtendedText(name, x);
    ExtendedLegal(name, x);
    FormDataLabel(text);
    DispositionFieldRead(file, ExtendedField(name, x));
    BlankInFront(text);
    ExtendedParams(name, x);
    KeysDiffer();
    ExtendedLookups(name, x);
    assert |"UTF-8''"| == 7;
  }

  lemma ExtendedLookups(name: string, x: string)
    ensures var params := [("name", name), ("filename*", x)];
            && Lookup(params, "name") == Some(name) && Lookup(params, "filename") == None
            && Lookup(params, "filename*") == Some(x)
  {
    KeysDiffer();
    LookupTwo("name", name, "filename*", x, "filename");
  }

  lemma {:induction false} EncodedUnspaced(v: string)
    requires IsBytes(v)
    ensures forall i :: 0 <= i < |QueryCodec.Encoded(v)| ==>
              var c := QueryCodec.Encoded(v)[i]; IsFieldVchar(c) && c != ';' && c != '='
    ensures v != "" ==> QueryCodec.Encoded(v) != ""
  {
    if v != "" {
      EncodedUnspaced(v[1..]);
      EncodedCharUnspaced(v[0]);
    }
  }

  lemma EncodedCharUnspaced(c: char)
    requires IsByte(c)
    ensures QueryCodec.EncodedChar(c) != ""
    ensures forall i :: 0 <= i < |QueryCodec.EncodedChar(c)| ==>
              var d := QueryCodec.EncodedChar(c)[i]; IsFieldVchar(d) && d != ';' && d != '='
  {
    HexVisible(c as int / 16);
    HexVisible(c as int % 16);
  }

  lemma HexVisible(d: nat)
    requires d < 16
    ensures var c := QueryCodec.UpperHex(d); IsFieldVchar(c) && c != ';' && c != '='
  {
  }

  /** A file name of any bytes, sent in extended form, is read back. */
  lemma ExtendedNameRoundTrip(file: FileInfo, name: string, filename: string)
    requires Quotable(name) && IsBytes(filename) && filename != ""
    ensures ReadHeader(file, LineOf(ExtendedField(name, "UTF-8''" + QueryCodec.Encoded(filename))))
         == (file.(name := name, filename := filename), true)
  {
    var e := QueryCodec.Encoded(filename);
    var x := "UTF-8''" + e;
    EncodedUnspaced(filename);
    assert forall i :: 0 <= i < |x| ==> IsFieldVchar(x[i]) && x[i] != ';' && x[i] != '=';
    assert x[..7] == "UTF-8''" && x[7..] == e;
    ExtendedNameRead(file, name, x);
    QueryCodec.DecodeEncoded(filename, false);
  }

  /** A disposition of form data without a name ends the parse. */
  lemma NamelessRefused(file: FileInfo, key: string, val: string)
    requires PlainKey(key) && IsToken(key) && key != "name" && Quotable(val)
    ensures ReadHeader(file, LineOf(("Content-Disposition", "form-data; " + Parameter(key, val)))) == (file, false)
  {
    var f, text := ("Content-Disposition", "form-data; " + Parameter(key, val)), Parameter(key, val);
    LiteralsAreFieldText();
    ParameterIsFieldText(key, val);
    FieldTextIsValue("form-data; ", text);
    FormDataLabel(text);
    DispositionFieldRead(file, f);
    ParameterPiece(key, val);
    BlankInFront(text);
    SingleParam(key, val);
    LookupOne(key, val, "name");
  }

  lemma ThreeSides(key: string, x: string, y: string, rest: string)
    requires key != "" && Trimmed(key) && '=' !in key && x != "" && Trimmed(x) && '=' !in x
    requires y != "" && Trimmed(y) && '=' !in y && rest == x + ['='] + y
    ensures Pieces(key + ['='] + rest, '=') == [key, x, y]
  {
    PiecesCons(key, '=', rest);
    TwoSides(x, y);
  }

  lemma LastOfThree(p: string, key: string, x: string, y: string, seen: set<string>)
    requires Pieces(p, '=') == [key, x, y] && Unquoted(key) == key && Unquoted(y) == y && p !in seen
    ensures DispositionParams([p], seen) == [(key, y)]
  {
    assert [p][1..] == [];
  }

  /** Of several equals signs in a parameter, what follows the last one counts. */
  lemma LastSideCounts(key: string, x: string, y: string, seen: set<string>)
    requires PlainKey(key) && Unspaced(x) && Unspaced(y)
    requires key + ['='] + (x + ['='] + y) !in seen
    ensures DispositionParams([key + ['='] + (x + ['='] + y)], seen) == [(key, y)]
  {
    UnspacedFits(x);
    UnspacedFits(y);
    ThreeSides(key, x, y, x + ['='] + y);
    LastOfThree(key + ['='] + (x + ['='] + y), key, x, y, seen);
  }

  /** A piece that has been seen makes no difference. */
  lemma {:induction false} RepeatedPieceIgnored(a: seq<string>, p: string, b: seq<string>, seen: set<string>)
    requires p in a || p in seen
    ensures DispositionParams(a + [p] + b, seen) == DispositionParams(a + b, seen)
    decreases |a|
  {
    var whole := a + [p] + b;
    if a == [] {
      assert whole[1..] == b && a + b == b;
    } else {
      assert whole[1..] == a[1..] + [p] + b && (a + b)[1..] == a[1..] + b;
      RepeatedPieceIgnored(a[1..], p, b, if a[0] in seen then seen else seen + {a[0]});
    }
  }

  lemma LastOfTwo(p: string, key: string, y: string, seen: set<string>)
    requires Pieces(p, '=') == [key, y] && Unquoted(key) == key && Unquoted(y) == y && p !in seen
    ensures DispositionParams([p], seen) == [(key, y)]
  {
    assert [p][1..] == [];
  }

  lemma HalfQuoted(x: string)
    requires Unspaced(x) && x[|x| - 1] != '"'
    ensures var y := "\"" + x; Trimmed(y) && '=' !in y && Unquoted(y) == y
  {
  }

  /** A quote at one end only belongs to the value. */
  lemma OneQuoteStays(key: string, x: string, y: string, seen: set<string>)
    requires PlainKey(key) && Unspaced(x) && x[|x| - 1] != '"' && y == "\"" + x && key + ['='] + y !in seen
    ensures DispositionParams([key + ['='] + y], seen) == [(key, y)]
  {
    HalfQuoted(x);
    TwoSides(key, y);
    LastOfTwo(key + ['='] + y, key, y, seen);
  }

  /** Of several parameters of a name the first counts, and an extended file name counts more than a plain one,
      wherever it stands. */
  lemma WhichParamCounts(file: FileInfo, n: string, m: string, plain: string, f: string)
    requires IsBytes(f) && f != ""
    ensures var e := "UTF-8''" + QueryCodec.Encoded(f);
            && ReadDisposition(file, [("name", n), ("name", m)]) == (file.(name := n), true)
            && ReadDisposition(file, [("name", n), ("filename", plain), ("filename", m)])
               == (file.(name := n, filename := plain), true)
            && ReadDisposition(file, [("name", n), ("filename", plain), ("filename*", e)])
               == (file.(name := n, filename := f), true)
            && ReadDisposition(file, [("name", n), ("filename*", e), ("filename", plain)])
               == (file.(name := n, filename := f), true)
  {
    var e := "UTF-8''" + QueryCodec.Encoded(f);
    KeysDiffer();
    EncodedUnspaced(f);
    assert e[..7] == "UTF-8''" && e[7..] == QueryCodec.Encoded(f);
    QueryCodec.DecodeEncoded(f, false);
    TwoLookups(n, m);
    ThreeLookups(n, "filename", plain, "filename", m);
    ThreeLookups(n, "filename", plain, "filename*", e);
    ThreeLookups(n, "filename*", e, "filename", plain);
  }

  lemma TwoLookups(n: string, m: string)
    ensures var params := [("name", n), ("name", m)];
            && Lookup(params, "name") == Some(n) && Lookup(params, "filename") == None
            && Lookup(params, "filename*") == None
  {
    KeysDiffer();
    assert [("name", n), ("name", m)][1..] == [("name", m)];
    LookupOne("name", m, "filename");
    LookupOne("name", m, "filename*");
  }

  lemma ThreeLookups(n: string, key: string, x: string, key2: string, y: string)
    requires key == "filename" || key == "filename*"
    requires key2 == "filename" || key2 == "filename*"
    ensures var params := [("name", n), (key, x), (key2, y)];
            && Lookup(params, "name") == Some(n) && Lookup(params, key) == Some(x)
            && (key2 != key ==> Lookup(params, key2) == Some(y))
            && (key2 == key ==> Lookup(params, if key == "filename" then "filename*" else "filename") == None)
  {
    KeysDiffer();
    var two := [(key, x), (key2, y)];
    assert [("name", n), (key, x), (key2, y)] == [("name", n)] + two;
    LookupBehind("name", n, two, "filename");
    LookupBehind("name", n, two, "filename*");
    assert two == [(key, x)] + [(key2, y)];
    LookupBehind(key, x, [(key2, y)], if key == "filename" then "filename*" else "filename");
    LookupOne(key2, y, if key2 == "filename" then "filename*" else "filename");
  }

  // ---- The fields of a part ----

  function LinesOf(fields: seq<Field>): (r: seq<string>)
    ensures |r| == |fields|
  {
    if fields == [] then [] else [LineOf(fields[0])] + LinesOf(fields[1..])
  }

  predicate AllLegal(fields: seq<Field>) { forall i :: 0 <= i < |fields| ==> Legal(fields[i]) }

  /** The fields without those that say nothing about the part. */
  function Telling(fields: seq<Field>): seq<Field> {
    if fields == [] then []
    else if Other(fields[0]) then Telling(fields[1..])
    else [fields[0]] + Telling(fields[1..])
  }

  /** Among other fields, in any case of the labels, these tell the description of a part. */
  predicate Describe(fields: seq<Field>, info: FileInfo) {
    var told := Telling(fields);
    && |told| == (if info.contentType == "" then 1 else 2)
    && DescribesFile(told[0]) && told[0].1[|"form-data;"|..] == " " + ParameterText(info)
    && (|told| == 2 ==> Named(told[1], "Content-Type") && told[1].1 == info.contentType)
  }

  lemma LinesOfCons(f: Field, more: seq<Field>)
    ensures LinesOf([f] + more) == [LineOf(f)] + LinesOf(more)
  {
    assert ([f] + more)[1..] == more;
  }

  lemma ReadHeadersCons(c: Setup, file: FileInfo, line: string, more: seq<string>)
    ensures ReadHeaders(c, file, [line] + more) ==
            var (next, ok) := c.readHeader(file, line);
            if ok then ReadHeaders(c, next, more) else (next, false)
  {
    assert ([line] + more)[1..] == more;
  }

  /** The other fields make no difference, wherever they are. */
  lemma {:induction false} OthersMakeNoDifference(c: Setup, file: FileInfo, fields: seq<Field>)
    requires c.readHeader == ReadHeader && AllLegal(fields)
    ensures ReadHeaders(c, file, LinesOf(fields)) == ReadHeaders(c, file, LinesOf(Telling(fields)))
    decreases |fields|
  {
    if fields != [] {
      var f, more := fields[0], fields[1..];
      assert Legal(f);
      ReadHeadersCons(c, file, LineOf(f), LinesOf(more));
      if Other(f) {
        OtherFieldIgnored(file, f);
        OthersMakeNoDifference(c, file, more);
      } else {
        var next := ReadHeader(file, LineOf(f)).0;
        OthersMakeNoDifference(c, next, more);
        LinesOfCons(f, Telling(more));
        ReadHeadersCons(c, file, LineOf(f), LinesOf(Telling(more)));
      }
    }
  }

  lemma {:induction false} TellingLegal(fields: seq<Field>)
    requires AllLegal(fields)
    ensures AllLegal(Telling(fields))
    decreases |fields|
  {
    if fields != [] {
      assert Legal(fields[0]);
      TellingLegal(fields[1..]);
    }
  }

  lemma BlankInFront(text: string)
    requires text != "" && !IsBlank(text[0])
    ensures TrimLeft(" " + text) == text
  {
    TrimLeftShrinks(" " + text);
    assert (" " + text)[1..] == text;
  }

  lemma FileFieldRead(f: Field, info: FileInfo)
    requires Legal(f) && DescribesFile(f) && f.1[|"form-data;"|..] == " " + ParameterText(info)
    requires Quotable(info.name) && Quotable(info.filename)
    ensures ReadHeader(NO_FILE, LineOf(f)) == (NO_FILE.(name := info.name, filename := info.filename), true)
  {
    var text := ParameterText(info);
    DispositionFieldRead(NO_FILE, f);
    assert text[0] == 'n';
    BlankInFront(text);
    ParametersRead(info);
    DispositionRead(NO_FILE, info);
  }

  lemma TwoLines(told: seq<Field>)
    requires |told| == 2
    ensures LinesOf(told) == [LineOf(told[0]), LineOf(told[1])]
  {
    assert told[1..] == [told[1]] && [told[1]][1..] == [];
  }

  lemma OneLine(told: seq<Field>)
    requires |told| == 1
    ensures LinesOf(told) == [LineOf(told[0])]
  {
    assert told[1..] == [];
  }

  /** Legal fields that tell a description, among any others, are read as that description. */
  lemma DescriptionRead(c: Setup, fields: seq<Field>, info: FileInfo)
    requires c.readHeader == ReadHeader && AllLegal(fields) && Describe(fields, info)
    requires Quotable(info.name) && Quotable(info.filename)
    ensures ReadHeaders(c, NO_FILE, LinesOf(fields)) == (info, true)
  {
    var told := Telling(fields);
    var named := NO_FILE.(name := info.name, filename := info.filename);
    OthersMakeNoDifference(c, NO_FILE, fields);
    TellingLegal(fields);
    assert Legal(told[0]);
    FileFieldRead(told[0], info);
    if |told| == 1 {
      OneLine(told);
      ReadOne(c, NO_FILE, LineOf(told[0]), named);
    } else {
      assert Legal(told[1]);
      TwoLines(told);
      TypeFieldRead(named, told[1]);
      ReadTwo(c, NO_FILE, LineOf(told[0]), named, LineOf(told[1]), info);
    }
  }

  // ---- Forms with other fields ----

  /** What the fields of a part must respect: they are legal, their lines are short enough, and they tell its
      description, which is one that parameters can carry; and its content hides no delimiter. */
  predicate Tells(boundary: string, fields: seq<Field>, part: Part) {
    && AllLegal(fields) && Describe(fields, part.info)
    && Quotable(part.info.name) && Quotable(part.info.filename)
    && (forall i :: 0 <= i < |fields| ==> |LineOf(fields[i])| < HEADER_MAX_LENGTH)
    && FindFrom(part.content, CrlfDashBoundary(boundary), 0).None?
  }

  lemma LegalLineGood(f: Field)
    requires Legal(f) && |LineOf(f)| < HEADER_MAX_LENGTH
    ensures GoodLine(LineOf(f))
  {
    assert '\r' !in f.0 && '\r' !in f.1;
    assert '\r' !in LineOf(f);
    NoCrlf(LineOf(f));
  }

  lemma {:induction false} LinesGood(fields: seq<Field>)
    requires AllLegal(fields) && forall i :: 0 <= i < |fields| ==> |LineOf(fields[i])| < HEADER_MAX_LENGTH
    ensures forall line :: line in LinesOf(fields) ==> GoodLine(line)
    decreases |fields|
  {
    if fields != [] {
      assert Legal(fields[0]);
      LegalLineGood(fields[0]);
      LinesGood(fields[1..]);
    }
  }

  function LayoutOf(fields: seq<seq<Field>>): (r: Layout)
    ensures |r| == |fields|
  {
    seq(|fields|, i requires 0 <= i < |fields| => LinesOf(fields[i]))
  }

  /** Fields of other names, put anywhere among the ones that describe the parts, change nothing: under any
      chunking that does not cut the opening delimiter line, exactly the parts are delivered. */
  lemma OtherFieldsChangeNothing(boundary: string, answer: seq<Event> -> bool, fields: seq<seq<Field>>,
                                 parts: seq<Part>, chunks: seq<string>)
    requires ValidBoundary(boundary) && (forall es :: answer(es)) && parts != [] && |fields| == |parts|
    requires forall i :: 0 <= i < |parts| ==> Tells(boundary, fields[i], parts[i])
    requires Concat(chunks) == SerializeWith(boundary, LayoutOf(fields), parts)
    requires OpeningArrivesWhole(boundary, chunks)
    ensures var r := FeedAll(RealSetup(boundary, answer), INITIAL, chunks);
            r.1 && r.0.isValid && Delivered(r.0.events) == parts
  {
    var c := RealSetup(boundary, answer);
    forall i | 0 <= i < |parts|
      ensures WrittenWith(c, LayoutOf(fields)[i], parts[i])
    {
      assert Tells(boundary, fields[i], parts[i]);
      DescriptionRead(c, fields[i], parts[i].info);
      LinesGood(fields[i]);
    }
    ParseInvertsWith(c, LayoutOf(fields), parts, chunks);
  }
}
