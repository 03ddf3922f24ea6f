/** Byte ranges of a request: normalisation and acceptance (sections 14.1.2 and 14.2 of RFC 9110), and
    the length and the bytes of a multipart response. */
module Ranges {
  import opened Options
  import opened Text

  /** First and last position; -1 stands for an absent one. */
  datatype Range = Range(first: int, last: int)

  const MAX_COUNT := 1024

  /** What the loop body of `range_error` makes of one range. All terms stay within `ssize_t` when the
      positions and the length do, because nothing negative but -1 is subtracted. */
  function Normalized(r: Range, len: nat): Range {
    var a := if r.first == -1 && r.last == -1 then Range(0, len) else r;
    var b := if a.first == -1 then Range(len - a.last, len - 1) else a;
    if b.last == -1 || b.last >= len then Range(b.first, len - 1) else b
  }

  predicate Within(r: Range, len: nat) { 0 <= r.first <= r.last < len }

  function NormalizedAll(rs: seq<Range>, len: nat): (r: seq<Range>)
    ensures |r| == |rs|
  {
    seq(|rs|, i requires 0 <= i < |rs| => Normalized(rs[i], len))
  }

  /** What section 14.1.2 of RFC 9110 selects, if the range is satisfiable. */
  function Selected(r: Range, len: nat): Option<Range> {
    if r.first == -1 then
      if r.last == 0 then None
      else Some(Range(if r.last > len then 0 else len - r.last, len - 1))
    else if r.first >= len then None
    else Some(Range(r.first, if r.last == -1 || r.last >= len then len - 1 else r.last))
  }

  /** A range that the header parser accepts. */
  predicate WellFormed(r: Range) {
    r.first >= -1 && r.last >= -1 && (r.first == -1 ==> r.last != -1) && (r.last == -1 || r.first <= r.last)
  }

  /** The code selects what the standard selects for every range, except that it refuses a suffix that
      is longer than the representation. */
  lemma NormalizationIff(r: Range, len: nat)
    requires WellFormed(r)
    ensures (if Within(Normalized(r, len), len) then Some(Normalized(r, len)) else None) == Selected(r, len)
            <==> !(r.first == -1 && r.last > len)
  {
    if r.first == -1 && r.last > len {
      assert Selected(r, len).Some?;
      assert Normalized(r, len).first < 0;
    }
  }

  /** Of ten bytes the last eleven are refused, where the standard selects all ten. */
  lemma LongSuffixRefused()
    ensures !Within(Normalized(Range(-1, 11), 10), 10) && Selected(Range(-1, 11), 10) == Some(Range(0, 9))
  {
    NormalizationIff(Range(-1, 11), 10);
  }

  /** With neither position given, all the content is selected. */
  lemma AbsentMeansAll(len: nat)
    ensures Normalized(Range(-1, -1), len) == Range(0, len - 1)
  {
  }

  // ---- Acceptance ----

  function MaxLast(rs: seq<Range>): (r: int)
    ensures r >= -1
  {
    if rs == [] then -1
    else
      var n := |rs| - 1;
      if MaxLast(rs[..n]) < rs[n].last then rs[n].last else MaxLast(rs[..n])
  }

  /** How many ranges start at or before the largest last position in front of them. */
  function Overlaps(rs: seq<Range>): nat {
    if rs == [] then 0
    else
      var n := |rs| - 1;
      Overlaps(rs[..n]) + (if rs[n].first <= MaxLast(rs[..n]) then 1 else 0)
  }

  /** What the loop of `range_error` lets pass. */
  predicate Accepted(rs: seq<Range>, len: nat) {
    rs == [] ||
    var n := |rs| - 1;
    && Accepted(rs[..n], len) && Within(rs[n], len)
    && (n > 0 ==> rs[n - 1].first < rs[n].first)
    && Overlaps(rs) <= 2
  }

  /** The range overlaps one in front of it. */
  predicate OverlapsEarlier(rs: seq<Range>, i: nat)
    requires i < |rs|
  {
    exists j :: 0 <= j < i && rs[i].first <= rs[j].last
  }

  /** How many of the first `n` ranges overlap one in front of them. */
  function OverlapCount(rs: seq<Range>, n: nat): nat
    requires n <= |rs|
  {
    if n == 0 then 0 else OverlapCount(rs, n - 1) + (if OverlapsEarlier(rs, n - 1) then 1 else 0)
  }

  /** The standard's terms: ranges within the content, in ascending order, at most two of which overlap
      an earlier one. */
  ghost predicate Reasonable(rs: seq<Range>, len: nat) {
    && AllWithin(rs, len)
    && (forall i, j :: 0 <= i < j < |rs| ==> rs[i].first < rs[j].first)
    && OverlapCount(rs, |rs|) <= 2
  }

  lemma {:induction false} MaxLastReached(rs: seq<Range>, n: nat, x: int)
    requires n <= |rs| && x >= 0
    ensures x <= MaxLast(rs[..n]) <==> exists j :: 0 <= j < n && x <= rs[j].last
  {
    if n > 0 {
      assert rs[..n][..n - 1] == rs[..n - 1];
      MaxLastReached(rs, n - 1, x);
    }
  }

  lemma {:induction false} OverlapsCounted(rs: seq<Range>, n: nat)
    requires n <= |rs| && forall i :: 0 <= i < n ==> rs[i].first >= 0
    ensures Overlaps(rs[..n]) == OverlapCount(rs, n)
  {
    if n > 0 {
      assert rs[..n][..n - 1] == rs[..n - 1];
      OverlapsCounted(rs, n - 1);
      MaxLastReached(rs, n - 1, rs[n - 1].first);
    }
  }

  lemma {:induction false} OverlapsGrow(rs: seq<Range>, k: nat)
    requires k <= |rs|
    ensures Overlaps(rs[..k]) <= Overlaps(rs)
    decreases |rs| - k
  {
    if k == |rs| {
      assert rs[..k] == rs;
    } else {
      assert rs[..k + 1][..k] == rs[..k];
      OverlapsGrow(rs, k + 1);
    }
  }

  lemma {:induction false} FirstsAscend(rs: seq<Range>, i: nat, j: nat, len: nat)
    requires Accepted(rs, len) && i < j < |rs|
    ensures rs[i].first < rs[j].first
    decreases |rs|
  {
    var n := |rs| - 1;
    if j < n {
      FirstsAscend(rs[..n], i, j, len);
    } else if i < n - 1 {
      FirstsAscend(rs[..n], i, n - 1, len);
    }
  }

  lemma {:induction false} AcceptedWithin(rs: seq<Range>, len: nat)
    requires Accepted(rs, len)
    ensures AllWithin(rs, len)
  {
    if rs != [] {
      var n := |rs| - 1;
      AcceptedWithin(rs[..n], len);
      forall i | 0 <= i < |rs|
        ensures Within(rs[i], len)
      {
        assert i < n ==> rs[..n][i] == rs[i];
      }
    }
  }

  /** The running maximum of the loop, which looks at one range at a time, decides the standard's
      condition on all pairs of ranges. */
  lemma AcceptedIff(rs: seq<Range>, len: nat)
    ensures Accepted(rs, len) <==> Reasonable(rs, len)
  {
    assert rs[..|rs|] == rs;
    if Accepted(rs, len) {
      AcceptedWithin(rs, len);
      OverlapsCounted(rs, |rs|);
      forall i, j | 0 <= i < j < |rs|
        ensures rs[i].first < rs[j].first
      {
        FirstsAscend(rs, i, j, len);
      }
    }
    if Reasonable(rs, len) {
      OverlapsCounted(rs, |rs|);
      ReasonableAccepted(rs, |rs|, len);
    }
  }

  lemma {:induction false} ReasonableAccepted(rs: seq<Range>, n: nat, len: nat)
    requires n <= |rs| && Reasonable(rs, len) && Overlaps(rs) <= 2
    ensures Accepted(rs[..n], len)
  {
    if n > 0 {
      ReasonableAccepted(rs, n - 1, len);
      assert rs[..n][..n - 1] == rs[..n - 1];
      OverlapsGrow(rs, n);
    }
  }

  // ---- What acceptance guarantees ----

  function Size(r: Range): int { r.last - r.first + 1 }

  function Total(rs: seq<Range>): int {
    if rs == [] then 0 else Total(rs[..|rs| - 1]) + Size(rs[|rs| - 1])
  }

  /** The ranges that overlap nothing in front of them fill disjoint parts of the content. */
  lemma {:induction false} TotalBound(rs: seq<Range>, len: nat)
    requires Accepted(rs, len)
    ensures Total(rs) <= MaxLast(rs) + 1 + Times(Overlaps(rs), len) && MaxLast(rs) < len
  {
    if rs != [] {
      TotalBound(rs[..|rs| - 1], len);
    }
  }

  function Times(n: nat, len: nat): nat {
    if n == 0 then 0 else Times(n - 1, len) + len
  }

  /** The ranges of an accepted request select at most three times the content. */
  lemma AcceptedTotal(rs: seq<Range>, len: nat)
    requires Accepted(rs, len)
    ensures Total(rs) <= 3 * len
  {
    TotalBound(rs, len);
    TimesTwo(Overlaps(rs), len);
  }

  lemma TimesTwo(n: nat, len: nat)
    requires n <= 2
    ensures Times(n, len) <= 2 * len
  {
    assert Times(0, len) == 0;
    assert n > 0 ==> Times(n, len) == Times(n - 1, len) + len;
    assert n > 1 ==> Times(n - 1, len) == Times(n - 2, len) + len;
  }

  /** `range_error`: rewrites the ranges in place, and reports an error exactly when they are too many
      or not accepted. */
  method RangeError(ranges: array<Range>, status: int, contentLength: nat, bodySize: nat) returns (error: bool)
    modifies ranges
    ensures var len := if contentLength != 0 then contentLength else bodySize;
            var rs := NormalizedAll(old(ranges[..]), len);
            if ranges.Length == 0 || !(200 <= status < 300) then !error && ranges[..] == old(ranges[..])
            else
              && (error <==> |rs| > MAX_COUNT || !Accepted(rs, len))
              && (!error ==> ranges[..] == rs)
  {
    if ranges.Length != 0 && 200 <= status < 300 {
      var len := if contentLength != 0 then contentLength else bodySize;
      if ranges.Length > MAX_COUNT {
        return true;
      }
      error := CheckRanges(ranges, len);
      return error;
    }
    return false;
  }

  /** The loop of `range_error`. */
  method CheckRanges(ranges: array<Range>, len: nat) returns (error: bool)
    modifies ranges
    ensures error <==> !Accepted(NormalizedAll(old(ranges[..]), len), len)
    ensures !error ==> ranges[..] == NormalizedAll(old(ranges[..]), len)
  {
    ghost var rs := NormalizedAll(ranges[..], len);
    var prevFirst, prevLast, overlapping := -1, -1, 0;
    var i := 0;
    while i < ranges.Length
      invariant i <= ranges.Length
      invariant forall k :: 0 <= k < i ==> ranges[k] == rs[k]
      invariant forall k :: i <= k < ranges.Length ==> ranges[k] == old(ranges[..])[k]
      invariant Accepted(rs[..i], len)
      invariant prevFirst == LastFirst(rs[..i]) && prevLast == MaxLast(rs[..i]) && overlapping == Overlaps(rs[..i])
    {
      ranges[i] := Normalize(ranges[i], len);
      var first, last := ranges[i].first, ranges[i].last;
      ghost var next := rs[..i + 1];
      assert next[..i] == rs[..i] && next[i] == rs[i] == ranges[i];
      if !(0 <= first <= last <= len - 1) || first <= prevFirst {
        Refused(rs, i, len);
        return true;
      }
      if first <= prevLast {
        overlapping := overlapping + 1;
        if overlapping > 2 {
          Refused(rs, i, len);
          return true;
        }
      }
      prevFirst := if prevFirst < first then first else prevFirst;
      prevLast := if prevLast < last then last else prevLast;
      i := i + 1;
    }
    assert rs[..i] == rs;
    assert ranges[..] == rs;
    return false;
  }

  method Normalize(r: Range, len: nat) returns (n: Range)
    ensures n == Normalized(r, len)
  {
    var first, last := r.first, r.last;
    if first == -1 && last == -1 {
      first, last := 0, len;
    }
    if first == -1 {
      first, last := len - last, len - 1;
    }
    if last == -1 || last >= len {
      last := len - 1;
    }
    n := Range(first, last);
  }

  /** The first position of the last range. */
  function LastFirst(rs: seq<Range>): int {
    if rs == [] then -1 else rs[|rs| - 1].first
  }

  lemma {:induction false} PrefixAccepted(rs: seq<Range>, k: nat, len: nat)
    requires k <= |rs| && Accepted(rs, len)
    ensures Accepted(rs[..k], len)
    decreases |rs|
  {
    if k == |rs| {
      assert rs[..k] == rs;
    } else {
      PrefixAccepted(rs[..|rs| - 1], k, len);
      assert rs[..|rs| - 1][..k] == rs[..k];
    }
  }

  lemma Refused(rs: seq<Range>, i: nat, len: nat)
    requires i < |rs| && !Accepted(rs[..i + 1], len)
    ensures !Accepted(rs, len)
  {
    if Accepted(rs, len) {
      PrefixAccepted(rs, i + 1, len);
    }
  }

  // ---- Multipart responses ----

  /** `std::to_string`. */
  function Decimal(n: nat): string {
    (if n < 10 then "" else Decimal(n / 10)) + [('0' as int + n % 10) as char]
  }

  /** `make_content_range_header_field` of an offset and a length. */
  function ContentRange(offset: nat, length: nat, contentLength: nat): string
    requires length > 0
  {
    "bytes " + Decimal(offset) + "-" + Decimal(offset + length - 1) + "/" + Decimal(contentLength)
  }

  function TypeLine(contentType: string): string {
    if contentType == "" then "" else "Content-Type: " + contentType + CRLF
  }

  /** The lines in front of the bytes of one range. */
  function PartHead(r: Range, boundary: string, contentType: string, len: nat): string
    requires Within(r, len)
  {
    "--" + boundary + CRLF + TypeLine(contentType)
    + "Content-Range: " + ContentRange(r.first, Size(r), len) + CRLF + CRLF
  }

  predicate AllWithin(rs: seq<Range>, len: nat) { forall i :: 0 <= i < |rs| ==> Within(rs[i], len) }

  /** The bytes a range selects. */
  function Slice(r: Range, body: string): string
    requires Within(r, |body|)
  {
    body[r.first..r.last + 1]
  }

  function Part(r: Range, boundary: string, contentType: string, body: string): string
    requires Within(r, |body|)
  {
    PartHead(r, boundary, contentType, |body|) + Slice(r, body) + CRLF
  }

  /** The parts of a response, without the closing delimiter. */
  function Parts(rs: seq<Range>, boundary: string, contentType: string, body: string): string
    requires AllWithin(rs, |body|)
  {
    if rs == [] then ""
    else
      var n := |rs| - 1;
      Parts(rs[..n], boundary, contentType, body)
      + Part(rs[n], boundary, contentType, body)
  }

  function Closing(boundary: string): string { "--" + boundary + "--" }

  function Response(rs: seq<Range>, boundary: string, contentType: string, body: string): string
    requires AllWithin(rs, |body|)
  {
    Parts(rs, boundary, contentType, body) + Closing(boundary)
  }

  /** `get_range_offset_and_length`; its assertions hold for a range within the content. */
  method OffsetAndLength(r: Range, contentLength: nat) returns (offset: nat, length: nat)
    requires Within(r, contentLength)
    ensures offset == r.first && length == Size(r) && offset + length <= contentLength
  {
    assert r.first != -1 && r.last != -1 && 0 <= r.first < contentLength;
    assert r.first <= r.last && r.last < contentLength;
    offset, length := r.first, r.last - r.first + 1;
  }

  /** `make_multipart_ranges_data`: the response body, token by token. */
  method MakeData(rs: seq<Range>, boundary: string, contentType: string, body: string) returns (data: string)
    requires AllWithin(rs, |body|)
    ensures data == Response(rs, boundary, contentType, body)
  {
    data := "";
    for i := 0 to |rs|
      invariant data == Parts(rs[..i], boundary, contentType, body)
    {
      assert rs[..i + 1][..i] == rs[..i];
      var part := MakePart(rs[i], boundary, contentType, body);
      data := data + part;
    }
    assert rs[..|rs|] == rs;
    data := data + ("--" + boundary + "--");
  }

  method MakePart(r: Range, boundary: string, contentType: string, body: string) returns (part: string)
    requires Within(r, |body|)
    ensures part == Part(r, boundary, contentType, body)
  {
    part := "--" + boundary + CRLF;
    if contentType != "" {
      part := part + ("Content-Type: " + contentType + CRLF);
    }
    var offset, length := OffsetAndLength(r, |body|);
    part := part + "Content-Range: " + ContentRange(offset, length, |body|) + CRLF + CRLF;
    part := part + body[offset..offset + length] + CRLF;
  }

  /** `get_multipart_ranges_data_length`: the length of the response, found without the body. */
  method DataLength(rs: seq<Range>, boundary: string, contentType: string, contentLength: nat, ghost body: string)
    returns (n: nat)
    requires AllWithin(rs, contentLength) && |body| == contentLength
    ensures n == |Response(rs, boundary, contentType, body)|
  {
    n := 0;
    for i := 0 to |rs|
      invariant n == |Parts(rs[..i], boundary, contentType, body)|
    {
      assert rs[..i + 1][..i] == rs[..i];
      var part := PartLength(rs[i], boundary, contentType, contentLength, body);
      n := n + part;
    }
    assert rs[..|rs|] == rs;
    n := n + 2 + |boundary| + 2;
  }

  method PartLength(r: Range, boundary: string, contentType: string, contentLength: nat, ghost body: string)
    returns (n: nat)
    requires Within(r, contentLength) && |body| == contentLength
    ensures n == |Part(r, boundary, contentType, body)|
  {
    n := 2 + |boundary| + 2;
    if contentType != "" {
      n := n + 14 + |contentType| + 2;
    }
    var offset, length := OffsetAndLength(r, contentLength);
    n := n + 15 + |ContentRange(offset, length, contentLength)| + 2 + 2;
    n := n + length + 2;
  }

  /** Where the bytes of range `i` start in the response. */
  function PartStart(rs: seq<Range>, i: nat, boundary: string, contentType: string, body: string): nat
    requires i < |rs| && AllWithin(rs, |body|)
  {
    |Parts(rs[..i], boundary, contentType, body)| + |PartHead(rs[i], boundary, contentType, |body|)|
  }

  lemma SliceInPart(r: Range, boundary: string, contentType: string, body: string)
    requires Within(r, |body|)
    ensures OccursAt(Part(r, boundary, contentType, body), Slice(r, body), |PartHead(r, boundary, contentType, |body|)|)
  {
    DelimiterThere(PartHead(r, boundary, contentType, |body|), Slice(r, body), CRLF);
  }

  lemma AllJoined(rs: seq<Range>, parts: seq<string>, boundary: string, contentType: string, body: string)
    requires |rs| == |parts| && AllWithin(rs, |body|)
    requires forall k :: 0 <= k < |rs| ==> parts[k] == Part(rs[k], boundary, contentType, body)
    ensures Parts(rs, boundary, contentType, body) == Joined(parts, |rs|)
  {
    PartsJoined(rs, |rs|, parts, boundary, contentType, body);
    assert rs[..|rs|] == rs;
  }

  /** The response carries each selected slice of the body, in the order of the ranges. */
  lemma CarriesSlices(rs: seq<Range>, i: nat, boundary: string, contentType: string, body: string)
    requires i < |rs| && AllWithin(rs, |body|)
    ensures OccursAt(Response(rs, boundary, contentType, body), Slice(rs[i], body),
                     PartStart(rs, i, boundary, contentType, body))
  {
    var parts := seq(|rs|, k requires 0 <= k < |rs| => Part(rs[k], boundary, contentType, body));
    AllJoined(rs, parts, boundary, contentType, body);
    PartsJoined(rs, i, parts, boundary, contentType, body);
    SliceInPart(rs[i], boundary, contentType, body);
    OccursInAll(parts, i, Slice(rs[i], body), |PartHead(rs[i], boundary, contentType, |body|)|,
                Closing(boundary), PartStart(rs, i, boundary, contentType, body));
  }

  function Joined(parts: seq<string>, n: nat): string
    requires n <= |parts|
  {
    if n == 0 then "" else Joined(parts, n - 1) + parts[n - 1]
  }

  lemma {:induction false} PartsJoined(rs: seq<Range>, n: nat, parts: seq<string>, boundary: string,
                                       contentType: string, body: string)
    requires n <= |rs| == |parts| && AllWithin(rs, |body|)
    requires forall k :: 0 <= k < |rs| ==> parts[k] == Part(rs[k], boundary, contentType, body)
    ensures Parts(rs[..n], boundary, contentType, body) == Joined(parts, n)
  {
    if n > 0 {
      assert rs[..n][..n - 1] == rs[..n - 1];
      PartsJoined(rs, n - 1, parts, boundary, contentType, body);
    }
  }

  lemma {:induction false} OccursInJoined(parts: seq<string>, i: nat, n: nat, p: string, k: nat)
    requires i < n <= |parts| && OccursAt(parts[i], p, k)
    ensures OccursAt(Joined(parts, n), p, |Joined(parts, i)| + k)
    decreases n
  {
    if i == n - 1 {
      OccursLater(Joined(parts, i), parts[i], p, k);
    } else {
      OccursInJoined(parts, i, n - 1, p, k);
      OccursMore(Joined(parts, n - 1), parts[n - 1], p, |Joined(parts, i)| + k);
    }
  }

  lemma OccursInAll(parts: seq<string>, i: nat, p: string, k: nat, closing: string, start: nat)
    requires i < |parts| && OccursAt(parts[i], p, k) && start == |Joined(parts, i)| + k
    ensures OccursAt(Joined(parts, |parts|) + closing, p, start)
  {
    OccursInJoined(parts, i, |parts|, p, k);
    OccursMore(Joined(parts, |parts|), closing, p, start);
  }

  lemma OccursLater(a: string, b: string, p: string, k: nat)
    requires OccursAt(b, p, k)
    ensures OccursAt(a + b, p, |a| + k)
  {
    assert (a + b)[|a| + k..|a| + k + |p|] == b[k..k + |p|];
  }

  lemma OccursMore(a: string, b: string, p: string, i: nat)
    requires OccursAt(a, p, i)
    ensures OccursAt(a + b, p, i)
  {
    assert (a + b)[i..i + |p|] == a[i..i + |p|];
  }
}
