/** Header field syntax: `detail::fields` and `parse_header`, shared by trailers and multipart parts. */
module Fields {
  import opened Options
  import opened Text
  import opened UrlCodec

  const HEADER_MAX_LENGTH := 8192

  predicate IsTokenChar(c: char) {
    IsAlnum(c) || c in "!#$%&'*+-.^_`|~"
  }

  predicate IsToken(s: string) {
    s != "" && forall i :: 0 <= i < |s| ==> IsTokenChar(s[i])
  }

  predicate IsFieldVchar(c: char) {
    33 <= c as int <= 126 || 128 <= c as int
  }

  /** `is_field_content`: visible at both ends, blanks allowed only in between. */
  predicate IsFieldValue(s: string) {
    if s == "" then true
    else if |s| == 1 then IsFieldVchar(s[0])
    else if |s| == 2 then IsFieldVchar(s[0]) && IsFieldVchar(s[1])
    else
      && IsFieldVchar(s[0])
      && IsFieldVchar(s[|s| - 1])
      && forall i :: 1 <= i < |s| - 1 ==> IsBlank(s[i]) || IsFieldVchar(s[i])
  }

  /** The delimiters of section 5.6.2 of RFC 9110. */
  const DELIMITERS: string := "\"(),/:;<=>?@[\\]{}"

  /** A token has every visible character of ASCII that is no delimiter. */
  lemma TokenCharIff(c: char)
    ensures IsTokenChar(c) <==> 33 <= c as int <= 126 && c !in DELIMITERS
  {
  }

  /** A character of a field value is none of the control characters, and no space. */
  lemma FieldVcharIff(c: char)
    ensures IsFieldVchar(c) <==> c != ' ' && !(c as int < 32) && c as int != 127
  {
  }

  /** A field value is a trimmed text of visible characters and blanks. */
  lemma FieldValueIff(s: string)
    ensures IsFieldValue(s) <==> Trimmed(s) && forall i :: 0 <= i < |s| ==> IsBlank(s[i]) || IsFieldVchar(s[i])
  {
  }

  predicate KeptVerbatim(key: string) {
    EqualIgnoringCase(key, "Location") || EqualIgnoringCase(key, "Referer")
  }

  /** The field of a name and a value, if they are legal. */
  function FieldOf(key: string, val: string): Option<(string, string)> {
    if !IsToken(key) || !IsFieldValue(val) then None
    else Some((key, if KeptVerbatim(key) then val else DecodeUrl(val, false)))
  }

  /** `parse_header`: the field handed to the callback, or None when it returns false. */
  function ParseHeader(line: string): Option<(string, string)> {
    var s := TrimRight(line);
    match FindChar(s, ':')
    case None => None
    case Some(colon) => FieldOf(s[..colon], TrimLeft(s[colon + 1..]))
  }

  /** The line that a field is printed as, without its CRLF. */
  function FieldLine(key: string, val: string): string { key + ": " + val }

  lemma TrimPrintedField(key: string, val: string)
    requires ':' !in key && Trimmed(val)
    ensures TrimRight(FieldLine(key, val)) == if val == "" then key + ":" else FieldLine(key, val)
  {
    var line := FieldLine(key, val);
    if val == "" {
      assert line[..|line| - 1] == key + ":";
      TrimRightSame(key + ":");
    } else {
      assert line[|line| - 1] == val[|val| - 1];
      TrimRightSame(line);
    }
  }

  /** `parse_header` splits the line into these two texts. */
  ghost predicate HasParts(line: string, key: string, val: string) {
    var s := TrimRight(line);
    FindChar(s, ':') == Some(|key|) && s[..|key|] == key && TrimLeft(s[|key| + 1..]) == val
  }

  /** Where the parser splits a printed field, for a name without a colon. */
  lemma PrintedFieldParts(key: string, val: string)
    requires ':' !in key && Trimmed(val)
    ensures HasParts(FieldLine(key, val), key, val)
  {
    TrimPrintedField(key, val);
    var s := TrimRight(FieldLine(key, val));
    var rest := if val == "" then "" else " " + val;
    assert s == key + [':'] + rest;
    FindCharAt(key, ':', rest);
    assert s[|key| + 1..] == rest;
    if val != "" {
      assert rest[1..] == val;
    }
  }

  lemma FieldValueTrimmed(val: string)
    requires IsFieldValue(val)
    ensures Trimmed(val)
  {
  }

  lemma ParsePrinted(key: string, val: string)
    requires ':' !in key && Trimmed(val)
    ensures ParseHeader(FieldLine(key, val)) == FieldOf(key, val)
  {
    PrintedFieldParts(key, val);
    ParseParts(FieldLine(key, val), key, val);
  }

  lemma ParseParts(line: string, key: string, val: string)
    requires HasParts(line, key, val)
    ensures ParseHeader(line) == FieldOf(key, val)
  {
  }

  lemma FieldOfIff(key: string, val: string)
    ensures FieldOf(key, val) == Some((key, val))
       <==> IsToken(key) && IsFieldValue(val) && (KeptVerbatim(key) || !HasEscape(val))
  {
    DecodeIdentity(val, false);
  }

  lemma ParseColonInKey(key: string, val: string)
    requires ':' in key
    ensures ParseHeader(FieldLine(key, val)).Some? ==> |ParseHeader(FieldLine(key, val)).value.0| < |key|
  {
    var line := FieldLine(key, val);
    FindCharFirst(key, ':');
    var k := FindChar(key, ':').value;
    assert line[k] == ':';
    TrimRightCovers(line, k);
    FirstAtMost(TrimRight(line), ':', k);
  }

  lemma FirstAtMost(s: string, c: char, k: nat)
    requires k < |s| && s[k] == c
    ensures FindChar(s, c).Some? && FindChar(s, c).value <= k
  {
    FindCharFirst(s, c);
  }

  lemma ColonOfPrinted(key: string, val: string)
    requires ':' !in key
    ensures var s := TrimRight(FieldLine(key, val));
            |s| > |key| && FindChar(s, ':') == Some(|key|)
  {
    var line := FieldLine(key, val);
    var s := TrimRight(line);
    TrimRightCovers(line, |key|);
    TrimRightPrefix(line);
    assert s == key + [':'] + s[|key| + 1..];
    FindCharAt(key, ':', s[|key| + 1..]);
  }

  lemma TrimLeftShrinks(s: string)
    requires s != "" && IsBlank(s[0])
    ensures |TrimLeft(s)| < |s| && TrimLeft(s) == TrimLeft(s[1..])
  {
  }

  lemma UntrimmedRest(key: string, val: string)
    requires ':' !in key && !Trimmed(val)
    ensures var s := TrimRight(FieldLine(key, val));
            |s| > |key| && |TrimLeft(s[|key| + 1..])| < |val|
  {
    ColonOfPrinted(key, val);
    var line := FieldLine(key, val);
    var s := TrimRight(line);
    var rest := s[|key| + 1..];
    TrimRightPrefix(line);
    if |s| == |line| {
      assert rest == " " + val;
      TrimLeftShrinks(rest);
      assert rest[1..] == val;
      assert line[|line| - 1] == val[|val| - 1];
      TrimLeftShrinks(val);
    } else if rest != "" {
      assert rest[0] == line[|key| + 1] == ' ';
      TrimLeftShrinks(rest);
    }
  }

  lemma FieldOfShrinks(key: string, val: string)
    ensures FieldOf(key, val).Some? ==> |FieldOf(key, val).value.1| <= |val|
  {
  }

  /** A value that starts or ends with a blank comes back shorter. */
  lemma ParseUntrimmed(key: string, val: string)
    requires ':' !in key && !Trimmed(val)
    ensures ParseHeader(FieldLine(key, val)).Some? ==> |ParseHeader(FieldLine(key, val)).value.1| < |val|
  {
    ColonOfPrinted(key, val);
    UntrimmedRest(key, val);
    var s := TrimRight(FieldLine(key, val));
    ParseParts(FieldLine(key, val), s[..|key|], TrimLeft(s[|key| + 1..]));
    FieldOfShrinks(s[..|key|], TrimLeft(s[|key| + 1..]));
  }

  lemma ColonLost(key: string, val: string)
    requires ':' in key
    ensures ParseHeader(FieldLine(key, val)) != Some((key, val)) && !IsToken(key)
  {
    ParseColonInKey(key, val);
  }

  lemma BlanksLost(key: string, val: string)
    requires ':' !in key && !Trimmed(val)
    ensures ParseHeader(FieldLine(key, val)) != Some((key, val)) && !IsFieldValue(val)
  {
    ParseUntrimmed(key, val);
  }

  /** A printed field is read back unchanged exactly when its name is a token, its value is a legal
      field value, and decoding does not touch the value (or the name is one never decoded). */
  lemma FieldRoundTrip(key: string, val: string)
    ensures ParseHeader(FieldLine(key, val)) == Some((key, val))
       <==> IsToken(key) && IsFieldValue(val) && (KeptVerbatim(key) || !HasEscape(val))
  {
    if ':' in key {
      ColonLost(key, val);
    } else if Trimmed(val) {
      ParsePrinted(key, val);
      FieldOfIff(key, val);
    } else {
      BlanksLost(key, val);
    }
  }

  function LowerCase(s: string): (r: string)
    ensures |r| == |s| && forall i :: 0 <= i < |s| ==> r[i] == ToLower(s[i])
  {
    seq(|s|, i requires 0 <= i < |s| => ToLower(s[i]))
  }

  predicate IsVerbatimName(key: string) { LowerCase(key) == "location" || LowerCase(key) == "referer" }

  /** The two fields whose values are handed out as they are. */
  lemma VerbatimIff(key: string)
    ensures KeptVerbatim(key) <==> IsVerbatimName(key)
  {
    SameLowerCase(key, "Location", "location");
    SameLowerCase(key, "Referer", "referer");
  }

  lemma SameLowerCase(a: string, b: string, lower: string)
    requires LowerCase(b) == lower
    ensures EqualIgnoringCase(a, b) <==> LowerCase(a) == lower
  {
    if |a| == |b| {
      assert forall i :: 0 <= i < |a| ==> LowerCase(a)[i] == ToLower(a[i]) && lower[i] == ToLower(b[i]);
    }
  }
}
