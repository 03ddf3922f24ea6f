/** A reader of `multipart/byteranges` bodies (sections 14.4 and 14.6 of RFC 9110), written without regard to
    how the server prints them, and the proof that it gets back what the server announced. */
module RangesReader {
  import opened Options
  import opened Text
  import opened Ranges

  /** A part as its reader sees it: the positions and the length that its header announces, its type, and
      the bytes that follow. */
  datatype Announced = Announced(first: nat, last: nat, complete: nat, contentType: string, data: string)

  // ---- Reader ----

  /** What follows a text that has to be there. */
  function Behind(s: string, p: string): Option<string> {
    if p <= s then Some(s[|p|..]) else None
  }

  function DigitCount(s: string): (k: nat)
    ensures k <= |s|
  {
    if s != "" && IsDigit(s[0]) then 1 + DigitCount(s[1..]) else 0
  }

  /** The number that digits stand for; other characters do not count. */
  function Value(s: string): nat {
    if s == "" then 0
    else
      var c := s[|s| - 1];
      Value(s[..|s| - 1]) * 10 + if IsDigit(c) then c as int - '0' as int else 0
  }

  function Number(s: string): Option<(nat, string)> {
    var k := DigitCount(s);
    if k == 0 then None else Some((Value(s[..k]), s[k..]))
  }

  /** A number with a character behind it that has to be there. */
  function NumberThen(s: string, p: string): Option<(nat, string)> {
    match Number(s)
    case None => None
    case Some((n, rest)) =>
      match Behind(rest, p)
      case None => None
      case Some(more) => Some((n, more))
  }

  /** `bytes first-last/complete`, up to the end of its line. */
  function ReadContentRange(s: string): Option<(nat, nat, nat, string)> {
    match Behind(s, "bytes ")
    case None => None
    case Some(rest) => ReadFirst(rest)
  }

  function ReadFirst(s: string): Option<(nat, nat, nat, string)> {
    match NumberThen(s, "-")
    case None => None
    case Some((first, rest)) => ReadLast(first, rest)
  }

  function ReadLast(first: nat, s: string): Option<(nat, nat, nat, string)> {
    match NumberThen(s, "/")
    case None => None
    case Some((last, rest)) => ReadComplete(first, last, rest)
  }

  function ReadComplete(first: nat, last: nat, s: string): Option<(nat, nat, nat, string)> {
    match NumberThen(s, CRLF)
    case None => None
    case Some((complete, rest)) => Some((first, last, complete, rest))
  }

  /** The type of a part, if its header has one, and the lines behind it. */
  function ReadType(s: string): (string, string) {
    match Behind(s, "Content-Type: ")
    case None => ("", s)
    case Some(value) =>
      match FindFrom(value, CRLF, 0)
      case None => ("", s)
      case Some(k) => (value[..k], value[k + 2..])
  }

  /** The bytes of a part, as many as its header announces. */
  function ReadBytes(s: string, n: int): Option<(string, string)> {
    if n < 0 || n > |s| then None
    else
      match Behind(s[n..], CRLF)
      case None => None
      case Some(rest) => Some((s[..n], rest))
  }

  /** The `Content-Range` line. */
  function ReadField(s: string): Option<(nat, nat, nat, string)> {
    match Behind(s, "Content-Range: ")
    case None => None
    case Some(field) => ReadContentRange(field)
  }

  function ReadPart(boundary: string, s: string): Option<(Announced, string)> {
    match Behind(s, "--" + boundary + CRLF)
    case None => None
    case Some(lines) => ReadLines(lines)
  }

  function ReadLines(s: string): Option<(Announced, string)> {
    var (contentType, rest) := ReadType(s);
    match ReadField(rest)
    case None => None
    case Some((first, last, complete, blank)) => ReadData(first, last, complete, contentType, blank)
  }

  /** The empty line behind the header, and the bytes. */
  function ReadData(first: nat, last: nat, complete: nat, contentType: string, s: string): Option<(Announced, string)> {
    match Behind(s, CRLF)
    case None => None
    case Some(bytes) =>
      match ReadBytes(bytes, last - first + 1)
      case None => None
      case Some((data, rest)) => Some((Announced(first, last, complete, contentType, data), rest))
  }

  /** All the parts, up to the closing delimiter. */
  function ReadResponse(boundary: string, s: string): Option<seq<Announced>>
    decreases |s|
  {
    if s == "--" + boundary + "--" then Some([])
    else
      match ReadPart(boundary, s)
      case None => None
      case Some((part, rest)) =>
        if |rest| >= |s| then None
        else
          match ReadResponse(boundary, rest)
          case None => None
          case Some(parts) => Some([part] + parts)
  }

  // ---- Numbers ----

  predicate AllDigits(s: string) { forall i :: 0 <= i < |s| ==> IsDigit(s[i]) }

  lemma ValueSnoc(front: string, d: nat)
    requires d < 10 && AllDigits(front)
    ensures var s := front + [('0' as int + d) as char]; AllDigits(s) && Value(s) == Value(front) * 10 + d
  {
    var c := ('0' as int + d) as char;
    assert (front + [c])[..|front|] == front;
  }

  /** The printed form of a number has only digits, and stands for it. */
  lemma {:induction false} DecimalValue(n: nat)
    ensures AllDigits(Decimal(n)) && Decimal(n) != "" && Value(Decimal(n)) == n
  {
    if n < 10 {
      ValueSnoc("", n);
    } else {
      DecimalValue(n / 10);
      ValueSnoc(Decimal(n / 10), n % 10);
    }
  }

  lemma {:induction false} DigitsCounted(digits: string, rest: string)
    requires AllDigits(digits) && (rest == "" || !IsDigit(rest[0]))
    ensures DigitCount(digits + rest) == |digits|
  {
    if digits == "" {
      assert digits + rest == rest;
    } else {
      assert (digits + rest)[1..] == digits[1..] + rest;
      DigitsCounted(digits[1..], rest);
    }
  }

  lemma NumberRead(n: nat, p: string, more: string)
    requires p != "" && !IsDigit(p[0])
    ensures NumberThen(Decimal(n) + (p + more), p) == Some((n, more))
  {
    DecimalValue(n);
    DigitsCounted(Decimal(n), p + more);
    var s := Decimal(n) + (p + more);
    assert s[..|Decimal(n)|] == Decimal(n) && s[|Decimal(n)|..] == p + more;
    BehindIt(p, more);
  }

  lemma BehindIt(p: string, more: string)
    ensures Behind(p + more, p) == Some(more)
  {
    assert (p + more)[|p|..] == more;
  }

  // ---- Parts ----

  /** The text of the field, piece by piece from the end. */
  lemma ContentRangeShape(first: string, last: string, complete: string, s3: string, s2: string, s1: string, s0: string)
    requires s2 == complete + s3 && s1 == last + ("/" + s2) && s0 == first + ("-" + s1)
    ensures "bytes " + first + "-" + last + "/" + complete + s3 == "bytes " + s0
  {
  }

  lemma CompleteRead(first: nat, last: nat, complete: nat, more: string)
    ensures ReadComplete(first, last, Decimal(complete) + (CRLF + more)) == Some((first, last, complete, more))
  {
    NumberRead(complete, CRLF, more);
  }

  lemma LastRead(first: nat, last: nat, s2: string)
    ensures ReadLast(first, Decimal(last) + ("/" + s2)) == ReadComplete(first, last, s2)
  {
    NumberRead(last, "/", s2);
  }

  lemma FirstRead(first: nat, s1: string)
    ensures ReadContentRange("bytes " + (Decimal(first) + ("-" + s1))) == ReadLast(first, s1)
  {
    BehindIt("bytes ", Decimal(first) + ("-" + s1));
    NumberRead(first, "-", s1);
  }

  lemma ContentRangeText(r: Range, len: nat, more: string, s2: string, s1: string)
    requires Within(r, len) && s2 == Decimal(len) + (CRLF + more) && s1 == Decimal(r.last) + ("/" + s2)
    ensures ContentRange(r.first, Size(r), len) + (CRLF + more) == "bytes " + (Decimal(r.first) + ("-" + s1))
  {
    ContentRangeShape(Decimal(r.first), Decimal(r.last), Decimal(len), CRLF + more, s2, s1,
                      Decimal(r.first) + ("-" + s1));
  }

  /** The field gives back the first and the last position of the range, and the length of the content. */
  lemma ContentRangeRead(r: Range, len: nat, more: string)
    requires Within(r, len)
    ensures ReadContentRange(ContentRange(r.first, Size(r), len) + (CRLF + more))
         == Some((r.first, r.last, len, more))
  {
    var s2 := Decimal(len) + (CRLF + more);
    var s1 := Decimal(r.last) + ("/" + s2);
    ContentRangeText(r, len, more, s2, s1);
    FirstRead(r.first, s1);
    LastRead(r.first, r.last, s2);
    CompleteRead(r.first, r.last, len, more);
  }

  lemma TypeRead(contentType: string, more: string)
    requires FindFrom(contentType, CRLF, 0).None? && "Content-Range: " <= more
    ensures ReadType(TypeLine(contentType) + more) == (contentType, more)
  {
    if contentType == "" {
      assert TypeLine(contentType) + more == more;
      assert more[..|"Content-Range: "|][8] == 'R';
    } else {
      var line := contentType + CRLF + more;
      assert TypeLine(contentType) + more == "Content-Type: " + line;
      BehindIt("Content-Type: ", line);
      FirstDelimiter(contentType, CRLF, more, line);
      assert line[..|contentType|] == contentType && line[|contentType| + 2..] == more;
    }
  }

  lemma BytesRead(data: string, rest: string)
    ensures ReadBytes(data + (CRLF + rest), |data|) == Some((data, rest))
  {
    var s := data + (CRLF + rest);
    assert s[|data|..] == CRLF + rest && s[..|data|] == data;
    BehindIt(CRLF, rest);
  }

  lemma FieldRead(r: Range, len: nat, field: string, blank: string)
    requires Within(r, len) && field == ContentRange(r.first, Size(r), len)
    ensures ReadField("Content-Range: " + (field + (CRLF + blank))) == Some((r.first, r.last, len, blank))
  {
    BehindIt("Content-Range: ", field + (CRLF + blank));
    ContentRangeRead(r, len, blank);
  }

  lemma PartShape(open: string, typeLine: string, field: string, data: string, rest: string, bytes: string,
                  lines: string)
    requires bytes == data + (CRLF + rest) && lines == "Content-Range: " + (field + (CRLF + (CRLF + bytes)))
    ensures open + typeLine + "Content-Range: " + field + CRLF + CRLF + data + CRLF + rest == open + (typeLine + lines)
  {
  }

  lemma DataRead(first: nat, last: nat, complete: nat, contentType: string, data: string, rest: string)
    requires |data| == last - first + 1
    ensures ReadData(first, last, complete, contentType, CRLF + (data + (CRLF + rest)))
         == Some((Announced(first, last, complete, contentType, data), rest))
  {
    BehindIt(CRLF, data + (CRLF + rest));
    BytesRead(data, rest);
  }

  /** What the server announces of a range, and the bytes it selects. */
  function Announce(r: Range, contentType: string, body: string): Announced
    requires Within(r, |body|)
  {
    Announced(r.first, r.last, |body|, contentType, body[r.first..r.last + 1])
  }

  lemma PartRead(r: Range, boundary: string, contentType: string, body: string, rest: string)
    requires Within(r, |body|) && FindFrom(contentType, CRLF, 0).None?
    ensures ReadPart(boundary, Part(r, boundary, contentType, body) + rest)
         == Some((Announce(r, contentType, body), rest))
  {
    var open, field, data := "--" + boundary + CRLF, ContentRange(r.first, Size(r), |body|), Slice(r, body);
    var bytes := data + (CRLF + rest);
    var lines := "Content-Range: " + (field + (CRLF + (CRLF + bytes)));
    var head := TypeLine(contentType) + lines;
    PartText(r, boundary, contentType, body, rest, bytes, lines);
    BehindIt(open, head);
    TypeRead(contentType, lines);
    FieldRead(r, |body|, field, CRLF + bytes);
    DataRead(r.first, r.last, |body|, contentType, data, rest);
  }

  lemma PartText(r: Range, boundary: string, contentType: string, body: string, rest: string, bytes: string,
                 lines: string)
    requires Within(r, |body|) && bytes == Slice(r, body) + (CRLF + rest)
    requires lines == "Content-Range: " + (ContentRange(r.first, Size(r), |body|) + (CRLF + (CRLF + bytes)))
    ensures Part(r, boundary, contentType, body) + rest == "--" + boundary + CRLF + (TypeLine(contentType) + lines)
  {
    PartShape("--" + boundary + CRLF, TypeLine(contentType), ContentRange(r.first, Size(r), |body|), Slice(r, body),
              rest, bytes, lines);
  }

  // ---- Responses ----

  lemma {:induction false} JoinedFirst(parts: seq<string>, n: nat)
    requires 0 < n <= |parts|
    ensures Joined(parts, n) == parts[0] + Joined(parts[1..], n - 1)
  {
    if n == 1 {
      assert "" + parts[0] == parts[0] + "";
    } else {
      JoinedFirst(parts, n - 1);
      Assoc(parts[0], Joined(parts[1..], n - 2), parts[n - 1]);
    }
  }

  lemma FirstPart(rs: seq<Range>, boundary: string, contentType: string, body: string)
    requires rs != [] && AllWithin(rs, |body|)
    ensures Parts(rs, boundary, contentType, body)
         == Part(rs[0], boundary, contentType, body) + Parts(rs[1..], boundary, contentType, body)
  {
    var parts := seq(|rs|, k requires 0 <= k < |rs| => Part(rs[k], boundary, contentType, body));
    AllJoined(rs, parts, boundary, contentType, body);
    AllJoined(rs[1..], parts[1..], boundary, contentType, body);
    JoinedFirst(parts, |rs|);
  }

  function Announcements(rs: seq<Range>, contentType: string, body: string): seq<Announced>
    requires AllWithin(rs, |body|)
  {
    if rs == [] then [] else [Announce(rs[0], contentType, body)] + Announcements(rs[1..], contentType, body)
  }

  lemma ResponseFirst(rs: seq<Range>, boundary: string, contentType: string, body: string)
    requires rs != [] && AllWithin(rs, |body|)
    ensures Response(rs, boundary, contentType, body)
         == Part(rs[0], boundary, contentType, body) + Response(rs[1..], boundary, contentType, body)
    ensures |Part(rs[0], boundary, contentType, body)| > |boundary| + 4
  {
    FirstPart(rs, boundary, contentType, body);
    Assoc(Part(rs[0], boundary, contentType, body), Parts(rs[1..], boundary, contentType, body), Closing(boundary));
  }

  /** A reader of the standard gets from the response, for each range in its order, the positions that
      were selected, the length of the content, and the bytes at those positions. */
  lemma {:induction false} ResponseReadBack(rs: seq<Range>, boundary: string, contentType: string, body: string)
    requires AllWithin(rs, |body|) && FindFrom(contentType, CRLF, 0).None?
    ensures ReadResponse(boundary, Response(rs, boundary, contentType, body))
         == Some(Announcements(rs, contentType, body))
    decreases |rs|
  {
    if rs == [] {
      assert Response(rs, boundary, contentType, body) == "--" + boundary + "--";
    } else {
      var part, rest := Part(rs[0], boundary, contentType, body), Response(rs[1..], boundary, contentType, body);
      ResponseFirst(rs, boundary, contentType, body);
      PartRead(rs[0], boundary, contentType, body, rest);
      ResponseReadBack(rs[1..], boundary, contentType, body);
      assert |part + rest| == |part| + |rest|;
    }
  }
}
