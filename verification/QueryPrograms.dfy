/** The loops behind the query codec, each proved to compute its specification. */
module QueryPrograms {
  import opened Options
  import opened Text
  import opened UrlCodec
  import opened QueryCodec

  // ---- Values ----

  lemma {:induction false} EncodedSnoc(v: string, i: nat)
    requires i < |v| && IsBytes(v)
    ensures Encoded(v[..i + 1]) == Encoded(v[..i]) + EncodedChar(v[i])
    decreases i
  {
    if i == 0 {
      assert v[..1][1..] == "" && Encoded("") == "";
    } else {
      EncodedSnoc(v[1..], i - 1);
      assert v[..i + 1][1..] == v[1..][..i] && v[..i][1..] == v[1..][..i - 1];
      Assoc(EncodedChar(v[0]), Encoded(v[1..][..i - 1]), EncodedChar(v[i]));
    }
  }

  /** `encode_query_param`. */
  method EncodeQueryParam(value: string) returns (escaped: string)
    requires IsBytes(value)
    ensures escaped == Encoded(value)
  {
    escaped := "";
    for i := 0 to |value|
      invariant escaped == Encoded(value[..i])
    {
      EncodedSnoc(value, i);
      if Unreserved(value[i]) {
        escaped := escaped + [value[i]];
      } else {
        escaped := escaped + ['%', UpperHex(value[i] as int / 16), UpperHex(value[i] as int % 16)];
      }
    }
    assert value[..|value|] == value;
  }

  /** A number that is there to its last digit has all its digits. */
  lemma {:induction false} HexPrefix(s: string, i: nat, k: nat, count: nat)
    requires 0 < k <= count && HexValue(s, i, count).Some?
    ensures HexValue(s, i, k).Some? && i + count <= |s| && HexDigit(s[i + k - 1]).Some?
    decreases count
  {
    if k < count {
      HexPrefix(s, i, k, count - 1);
    }
  }

  /** `from_hex_to_i`. */
  method FromHexToI(s: string, i: nat, count: nat) returns (r: Option<nat>)
    requires count > 0
    ensures r == HexValue(s, i, count)
  {
    var val: nat := 0;
    for k := 0 to count
      invariant k > 0 ==> HexValue(s, i, k) == Some(val)
      invariant k == 0 ==> val == 0
    {
      if i + k >= |s| || HexDigit(s[i + k]).None? {
        if HexValue(s, i, count).Some? {
          HexPrefix(s, i, k + 1, count);
        }
        return None;
      }
      val := val * 16 + HexDigit(s[i + k]).value;
    }
    return Some(val);
  }

  lemma {:induction false} HexShift(s: string, from: nat, i: nat, count: nat)
    requires from <= |s| && count > 0
    ensures HexValue(s[from..], i, count) == HexValue(s, from + i, count)
    decreases count
  {
    if count > 1 {
      HexShift(s, from, i, count - 1);
    }
  }

  /** The escape that starts at position `i`, if one does. */
  method ReadEscape(s: string, i: nat) returns (r: Option<(nat, string)>)
    requires i < |s|
    ensures r == EscapeAt(s[i..])
  {
    r := None;
    if s[i] == '%' && i + 1 < |s| {
      if s[i + 1] == 'u' {
        HexShift(s, i, 2, 4);
        var v := FromHexToI(s, i + 2, 4);
        if v.Some? {
          r := Some((6, Utf8(v.value)));
        }
      } else {
        HexShift(s, i, 1, 2);
        var v := FromHexToI(s, i + 1, 2);
        if v.Some? {
          ByteValue(s, i + 1);
          r := Some((3, [v.value as char]));
        }
      }
    }
  }

  lemma ByteValue(s: string, i: nat)
    ensures HexValue(s, i, 2).Some? ==> HexValue(s, i, 2).value < 256
  {
    assert HexRange(2) == 256;
  }

  lemma DecodeStep(s: string, plusIsSpace: bool)
    requires s != ""
    ensures DecodeUrl(s, plusIsSpace) ==
            match EscapeAt(s)
            case Some(e) => e.1 + DecodeUrl(s[e.0..], plusIsSpace)
            case None => [if plusIsSpace && s[0] == '+' then ' ' else s[0]] + DecodeUrl(s[1..], plusIsSpace)
  {
  }

  /** What is decoded so far, in front of what is left. */
  ghost predicate Decoding(s: string, plusIsSpace: bool, i: nat, result: string) {
    i <= |s| && result + DecodeUrl(s[i..], plusIsSpace) == DecodeUrl(s, plusIsSpace)
  }

  lemma DecodingStarts(s: string, plusIsSpace: bool)
    ensures Decoding(s, plusIsSpace, 0, "")
  {
    assert s[0..] == s && "" + DecodeUrl(s, plusIsSpace) == DecodeUrl(s, plusIsSpace);
  }

  lemma DecodingStep(s: string, plusIsSpace: bool, i: nat, result: string, text: string, step: nat)
    requires Decoding(s, plusIsSpace, i, result) && i < |s|
    requires match EscapeAt(s[i..])
             case Some(e) => step == e.0 && text == e.1
             case None => step == 1 && text == [if plusIsSpace && s[i] == '+' then ' ' else s[i]]
    ensures Decoding(s, plusIsSpace, i + step, result + text)
  {
    DecodeStep(s[i..], plusIsSpace);
    assert s[i..][step..] == s[i + step..];
    Assoc(result, text, DecodeUrl(s[i + step..], plusIsSpace));
  }

  /** `decode_url`. */
  method Decode(s: string, plusIsSpace: bool) returns (result: string)
    ensures result == DecodeUrl(s, plusIsSpace)
  {
    result := "";
    var i: nat := 0;
    DecodingStarts(s, plusIsSpace);
    while i < |s|
      invariant Decoding(s, plusIsSpace, i, result)
      decreases |s| - i
    {
      var escape := ReadEscape(s, i);
      var text, step := [s[i]], 1;
      if escape.Some? {
        text, step := escape.value.1, escape.value.0;
      } else if plusIsSpace && s[i] == '+' {
        text := " ";
      }
      DecodingStep(s, plusIsSpace, i, result, text, step);
      result, i := result + text, i + step;
    }
    assert s[i..] == "" && result + "" == result;
  }

  // ---- Splitting ----

  predicate AllBlank(s: string) { forall i :: 0 <= i < |s| ==> IsBlank(s[i]) }

  lemma {:induction false} TrimLeftDrops(p: string, k: nat)
    requires k <= |p| && AllBlank(p[..k]) && (k == |p| || !IsBlank(p[k]))
    ensures TrimLeft(p) == p[k..]
    decreases |p|
  {
    TrimLeftOnce(p);
    if k > 0 {
      assert p[..k][0] == p[0];
      assert p[1..][..k - 1] == p[..k][1..];
      TrimLeftDrops(p[1..], k - 1);
      assert p[1..][k - 1..] == p[k..];
    }
  }

  lemma TrimLeftOnce(s: string)
    ensures TrimLeft(s) == if s != "" && IsBlank(s[0]) then TrimLeft(s[1..]) else s
  {
  }

  lemma TrimRightOnce(s: string)
    ensures TrimRight(s) == if s != "" && IsBlank(s[|s| - 1]) then TrimRight(s[..|s| - 1]) else s
  {
  }

  lemma {:induction false} TrimRightDrops(p: string, k: nat)
    requires k <= |p| && AllBlank(p[k..]) && (k == 0 || !IsBlank(p[k - 1]))
    ensures TrimRight(p) == p[..k]
    decreases |p|
  {
    TrimRightOnce(p);
    if k < |p| {
      var n := |p| - 1;
      assert p[k..][n - k] == p[n];
      assert p[..n][k..] == p[k..][..n - k];
      TrimRightDrops(p[..n], k);
      assert p[..n][..k] == p[..k];
    }
  }

  /** What `trim` returns: both limits may leave the piece when it is blank. */
  predicate IsTrimmed(s: string, begin: nat, end: nat, left: nat, right: nat) {
    && begin <= end <= |s| && begin <= left <= |s| && right <= end
    && (forall i :: begin <= i < left ==> IsBlank(s[i])) && (left == |s| || !IsBlank(s[left]))
    && (forall i :: right <= i < end ==> IsBlank(s[i])) && (right == 0 || !IsBlank(s[right - 1]))
  }

  lemma BlankSlice(s: string, from: nat, to: nat)
    requires from <= to <= |s| && forall i :: from <= i < to ==> IsBlank(s[i])
    ensures AllBlank(s[from..to])
  {
  }

  lemma TrimDrops(p: string, a: nat, b: nat, q: string)
    requires a < b <= |p| && q == p[a..]
    requires AllBlank(p[..a]) && !IsBlank(p[a]) && AllBlank(q[b - a..]) && !IsBlank(q[b - a - 1])
    ensures Trim(p) == q[..b - a]
  {
    TrimLeftDrops(p, a);
    TrimRightDrops(q, b - a);
  }

  lemma TrimmedSome(s: string, begin: nat, end: nat, left: nat, right: nat)
    requires IsTrimmed(s, begin, end, left, right) && left < right
    ensures Trim(s[begin..end]) == s[left..right]
  {
    var p, q := s[begin..end], s[left..end];
    BlankSlice(s, begin, left);
    BlankSlice(s, right, end);
    Slices(s, begin, left, right, end);
    TrimDrops(p, left - begin, right - begin, q);
  }

  lemma Slices(s: string, begin: nat, left: nat, right: nat, end: nat)
    requires begin <= left < right <= end <= |s|
    ensures s[begin..end][..left - begin] == s[begin..left] && s[begin..end][left - begin..] == s[left..end]
    ensures s[left..end][right - left..] == s[right..end] && s[left..end][..right - left] == s[left..right]
    ensures s[begin..end][left - begin] == s[left] && s[left..end][right - left - 1] == s[right - 1]
  {
  }

  lemma TrimmedNone(s: string, begin: nat, end: nat, left: nat, right: nat)
    requires IsTrimmed(s, begin, end, left, right) && left >= right
    ensures Trim(s[begin..end]) == ""
  {
    var p := s[begin..end];
    BlankSlice(s, begin, end);
    assert p[..|p|] == p;
    TrimLeftDrops(p, |p|);
    assert p[|p|..] == "";
  }

  /** `trim`. */
  method TrimRange(s: string, begin: nat, end: nat) returns (left: nat, right: nat)
    requires begin <= end <= |s|
    ensures IsTrimmed(s, begin, end, left, right)
  {
    left, right := begin, end;
    while left < |s| && IsBlank(s[left])
      invariant begin <= left <= |s| && forall i :: begin <= i < left ==> IsBlank(s[i])
    {
      left := left + 1;
    }
    while right > 0 && IsBlank(s[right - 1])
      invariant right <= end && forall i :: right <= i < end ==> IsBlank(s[i])
    {
      right := right - 1;
    }
  }

  /** What `split` hands out for one piece. */
  method TrimPiece(s: string, begin: nat, end: nat) returns (pieces: seq<string>)
    requires begin <= end <= |s|
    ensures pieces == Piece(s[begin..end])
  {
    var left, right := TrimRange(s, begin, end);
    if left < right {
      TrimmedSome(s, begin, end, left, right);
      pieces := [s[left..right]];
    } else {
      TrimmedNone(s, begin, end, left, right);
      pieces := [];
    }
  }

  lemma PiecesAt(s: string, begin: nat, i: nat, d: char)
    requires begin <= i < |s| && s[i] == d && d !in s[begin..i]
    ensures Pieces(s[begin..], d) == Piece(s[begin..i]) + Pieces(s[i + 1..], d)
  {
    assert s[begin..] == s[begin..i] + [d] + s[i + 1..];
    PiecesOfMore(s[begin..i], d, s[i + 1..]);
  }

  lemma PiecesLast(s: string, begin: nat, d: char)
    requires begin <= |s| && d !in s[begin..|s|]
    ensures Pieces(s[begin..], d) == Piece(s[begin..|s|])
  {
    assert s[begin..|s|] == s[begin..];
    PiecesOfOne(s[begin..], d);
  }

  lemma AssocSeq(a: seq<string>, b: seq<string>, c: seq<string>)
    ensures a + (b + c) == (a + b) + c
  {
  }

  /** No separator from `from` up to `to`. */
  predicate Without(s: string, d: char, from: nat, to: nat) {
    to <= |s| && (from >= to || (s[to - 1] != d && Without(s, d, from, to - 1)))
  }

  lemma {:induction false} WithoutMeans(s: string, d: char, from: nat, to: nat)
    requires Without(s, d, from, to) && from <= to
    ensures d !in s[from..to]
  {
    if from < to {
      WithoutMeans(s, d, from, to - 1);
      assert s[from..to] == s[from..to - 1] + [s[to - 1]];
    }
  }

  /** What has been handed out, and what is behind the last separator, is everything. */
  ghost predicate Splitting(s: string, d: char, begin: nat, pieces: seq<string>) {
    begin <= |s| && pieces + Pieces(s[begin..], d) == Pieces(s, d)
  }

  lemma SplittingStarts(s: string, d: char)
    ensures Splitting(s, d, 0, [])
  {
    assert s[0..] == s && [] + Pieces(s, d) == Pieces(s, d);
  }

  lemma SplittingStep(s: string, d: char, begin: nat, i: nat, pieces: seq<string>, piece: seq<string>)
    requires Splitting(s, d, begin, pieces) && begin <= i < |s| && s[i] == d && piece == Piece(s[begin..i])
    requires Without(s, d, begin, i)
    ensures Splitting(s, d, i + 1, pieces + piece)
  {
    WithoutMeans(s, d, begin, i);
    PiecesAt(s, begin, i, d);
    AssocSeq(pieces, piece, Pieces(s[i + 1..], d));
  }

  lemma SplittingEnds(s: string, d: char, begin: nat, pieces: seq<string>)
    requires Splitting(s, d, begin, pieces) && Without(s, d, begin, |s|)
    ensures pieces + Piece(s[begin..|s|]) == Pieces(s, d)
  {
    WithoutMeans(s, d, begin, |s|);
    PiecesLast(s, begin, d);
  }

  /** One separator of `split`. */
  method SplitOne(s: string, d: char, begin: nat, i: nat, pieces: seq<string>) returns (more: seq<string>)
    requires Splitting(s, d, begin, pieces) && begin <= i < |s| && s[i] == d && Without(s, d, begin, i)
    ensures Splitting(s, d, i + 1, more)
  {
    var piece := TrimPiece(s, begin, i);
    SplittingStep(s, d, begin, i, pieces, piece);
    more := pieces + piece;
  }

  /** `split`: what it hands to its callback, in order. */
  method Split(s: string, d: char) returns (pieces: seq<string>)
    ensures pieces == Pieces(s, d)
  {
    pieces := [];
    var begin: nat := 0;
    SplittingStarts(s, d);
    for i := 0 to |s|
      invariant begin <= i && Without(s, d, begin, i) && Splitting(s, d, begin, pieces)
    {
      if s[i] == d {
        pieces := SplitOne(s, d, begin, i, pieces);
        begin := i + 1;
      }
    }
    SplittingEnds(s, d, begin, pieces);
    var piece := TrimPiece(s, begin, |s|);
    pieces := pieces + piece;
  }

  // ---- Parameters ----

  /** `divide` at '=' and the decoding of both sides. */
  method ReadPair(piece: string) returns (r: Option<Param>)
    ensures r == ReadParam(piece)
  {
    var at := FindChar(piece, '=');
    var key := if at.None? then piece else piece[..at.value];
    var value := if at.None? then "" else piece[at.value + 1..];
    if key == "" {
      return None;
    }
    var k := Decode(key, true);
    var v := Decode(value, true);
    return Some(Param(k, v));
  }

  /** After `i` pieces the rest still leads to the result for all of them. */
  ghost predicate Reading(pieces: seq<string>, i: nat, cache: set<string>, ps: seq<Param>) {
    i <= |pieces| && ReadPieces(pieces[i..], cache, ps) == ReadPieces(pieces, {}, [])
  }

  lemma ReadingStarts(pieces: seq<string>)
    ensures Reading(pieces, 0, {}, [])
  {
    assert pieces[0..] == pieces;
  }

  lemma ReadingSkips(pieces: seq<string>, i: nat, cache: set<string>, ps: seq<Param>)
    requires i < |pieces| && pieces[i] in cache && Reading(pieces, i, cache, ps)
    ensures Reading(pieces, i + 1, cache, ps)
  {
    assert pieces[i..][1..] == pieces[i + 1..];
  }

  lemma ReadingSteps(pieces: seq<string>, i: nat, cache: set<string>, ps: seq<Param>, p: Option<Param>)
    requires i < |pieces| && pieces[i] !in cache && p == ReadParam(pieces[i]) && Reading(pieces, i, cache, ps)
    ensures Reading(pieces, i + 1, cache + {pieces[i]}, match p case None => ps case Some(q) => Emplace(ps, q))
  {
    assert pieces[i..][1..] == pieces[i + 1..];
  }

  lemma ReadingEnds(pieces: seq<string>, cache: set<string>, ps: seq<Param>)
    requires Reading(pieces, |pieces|, cache, ps)
    ensures ps == ReadPieces(pieces, {}, [])
  {
  }

  /** `parse_query_text` into an empty multimap. */
  method ParseQueryText(s: string) returns (ps: seq<Param>)
    ensures ps == ParseQuery(s)
  {
    var pieces := Split(s, '&');
    var cache: set<string> := {};
    ps := [];
    ReadingStarts(pieces);
    for i := 0 to |pieces|
      invariant Reading(pieces, i, cache, ps)
    {
      if pieces[i] in cache {
        ReadingSkips(pieces, i, cache, ps);
      } else {
        var p := ReadPair(pieces[i]);
        ReadingSteps(pieces, i, cache, ps, p);
        cache := cache + {pieces[i]};
        if p.Some? {
          ps := Emplace(ps, p.value);
        }
      }
    }
    ReadingEnds(pieces, cache, ps);
  }

  lemma {:induction false} QuerySnoc(ps: seq<Param>, p: Param)
    requires ByteValues(ps) && IsBytes(p.value)
    ensures ByteValues(ps + [p])
    ensures Query(ps + [p]) == if ps == [] then Printed(p) else Query(ps) + ("&" + Printed(p))
  {
    if |ps| == 1 {
      assert (ps + [p])[1..] == [p];
    } else if ps != [] {
      QuerySnoc(ps[1..], p);
      assert (ps + [p])[1..] == ps[1..] + [p];
      Joins(Printed(ps[0]), Query(ps[1..]), "&" + Printed(p));
    }
  }

  lemma Joins(a: string, b: string, c: string)
    ensures a + ("&" + (b + c)) == a + ("&" + b) + c
  {
  }

  /** `params_to_query_str`. */
  method ParamsToQueryStr(ps: seq<Param>) returns (query: string)
    requires ByteValues(ps)
    ensures query == Query(ps)
  {
    query := "";
    for i := 0 to |ps|
      invariant query == Query(ps[..i])
    {
      assert ps[..i + 1] == ps[..i] + [ps[i]];
      QuerySnoc(ps[..i], ps[i]);
      var value := EncodeQueryParam(ps[i].value);
      var printed := ps[i].key + ("=" + value);
      if i != 0 {
        query := query + ("&" + printed);
      } else {
        query := printed;
      }
    }
    assert ps[..|ps|] == ps;
  }
}
