/** Strings as the C++ code sees them: substring search, trimming and splitting.
    A C++ `char` is a Dafny `char`; `npos` and a null pointer become `None`. */
module Text {
  import opened Options

  const CRLF: string := "\r\n"

  predicate OccursAt(s: string, p: string, i: int) {
    0 <= i && i + |p| <= |s| && s[i..i + |p|] == p
  }

  /** `std::string::find(p, from)`: the leftmost occurrence at or after `from`. */
  function FindFrom(s: string, p: string, from: nat): (r: Option<nat>)
    ensures r.Some? ==> from <= r.value && OccursAt(s, p, r.value)
    ensures forall j :: from <= j && OccursAt(s, p, j) ==> r.Some? && r.value <= j
    decreases |s| - from
  {
    if from + |p| > |s| then None
    else if OccursAt(s, p, from) then Some(from)
    else FindFrom(s, p, from + 1)
  }

  /** `std::string::find(c)`. */
  function FindChar(s: string, c: char): (r: Option<nat>)
    ensures r.Some? ==> r.value < |s| && s[r.value] == c
  {
    if s == "" then None
    else if s[0] == c then Some(0)
    else
      match FindChar(s[1..], c)
      case None => None
      case Some(k) => Some(k + 1)
  }

  /** The character found is the first of its kind. */
  lemma {:induction false} FindCharFirst(s: string, c: char)
    ensures FindChar(s, c).None? ==> c !in s
    ensures FindChar(s, c).Some? ==> c !in s[..FindChar(s, c).value]
  {
    if s != "" && s[0] != c {
      FindCharFirst(s[1..], c);
      assert s == [s[0]] + s[1..];
      if FindChar(s, c).Some? {
        var k := FindChar(s[1..], c).value;
        assert s[..k + 1] == [s[0]] + s[1..][..k];
      }
    }
  }

  lemma {:induction false} FindCharAt(a: string, c: char, b: string)
    requires c !in a
    ensures FindChar(a + [c] + b, c) == Some(|a|)
  {
    var s := a + [c] + b;
    if a == "" {
      assert s[0] == c;
    } else {
      FindCharAt(a[1..], c, b);
      assert s[1..] == a[1..] + [c] + b;
    }
  }

  /** A delimiter whose first character does not come back later cannot overlap itself. */
  predicate Unbordered(d: string) {
    |d| > 0 && forall i :: 1 <= i < |d| ==> d[i] != d[0]
  }

  /** An occurrence of `d` that overlaps the one at `|c|` repeats `d[0]` inside `d`. */
  lemma OverlapRepeats(c: string, d: string, rest: string, j: nat)
    requires j < |c| < j + |d|
    requires OccursAt(c + d + rest, d, j)
    ensures d[|c| - j] == d[0]
  {
    var whole := c + d + rest;
    assert whole[j..j + |d|][|c| - j] == whole[|c|] == d[0];
  }

  /** In `c + d + rest`, with `c` free of `d`, no occurrence of `d` starts before `|c|`. */
  lemma NoEarlyOccurrence(c: string, d: string, rest: string, j: nat)
    requires Unbordered(d) && FindFrom(c, d, 0).None?
    requires OccursAt(c + d + rest, d, j)
    ensures |c| <= j
  {
    var whole := c + d + rest;
    if j + |d| <= |c| {
      assert whole[j..j + |d|] == c[j..j + |d|];
      assert OccursAt(c, d, j);
    }
    if j < |c| < j + |d| {
      OverlapRepeats(c, d, rest, j);
    }
  }

  lemma OccursInPrefix(b: string, whole: string, d: string, j: nat)
    requires b <= whole
    ensures OccursAt(b, d, j) <==> OccursAt(whole, d, j) && j + |d| <= |b|
  {
    if j + |d| <= |b| {
      assert b[j..j + |d|] == whole[j..j + |d|];
    }
  }

  lemma DelimiterThere(c: string, d: string, rest: string)
    ensures OccursAt(c + d + rest, d, |c|)
  {
  }

  /** In `c + d + rest`, where `c` is free of the unbordered delimiter `d`, every prefix either
      is too short to show the delimiter, and then shows none, or shows it exactly at `|c|`. */
  lemma FirstDelimiter(c: string, d: string, rest: string, b: string)
    requires Unbordered(d)
    requires FindFrom(c, d, 0).None?
    requires b <= c + d + rest
    ensures FindFrom(b, d, 0) == if |c| + |d| <= |b| then Some(|c|) else None
  {
    DelimiterThere(c, d, rest);
    forall j: nat | OccursAt(c + d + rest, d, j)
      ensures |c| <= j
    {
      NoEarlyOccurrence(c, d, rest, j);
    }
    FirstInPrefix(c + d + rest, d, |c|, b);
  }

  /** A prefix shows the first occurrence if it is long enough, and otherwise none. */
  lemma FirstInPrefix(whole: string, d: string, k: nat, b: string)
    requires OccursAt(whole, d, k) && forall j: nat :: OccursAt(whole, d, j) ==> k <= j
    requires b <= whole
    ensures FindFrom(b, d, 0) == if k + |d| <= |b| then Some(k) else None
  {
    OccursInPrefix(b, whole, d, k);
    var found := FindFrom(b, d, 0);
    if found.Some? {
      OccursInPrefix(b, whole, d, found.value);
    }
  }

  /** A suffix of a text that is free of `d` is free of `d`. */
  lemma SuffixFree(s: string, d: string, k: nat)
    requires k <= |s| && FindFrom(s, d, 0).None?
    ensures FindFrom(s[k..], d, 0).None?
  {
    if FindFrom(s[k..], d, 0).Some? {
      var j := FindFrom(s[k..], d, 0).value;
      assert s[k..][j..j + |d|] == s[k + j..k + j + |d|];
      assert OccursAt(s, d, k + j);
    }
  }

  lemma OccursAfter(a: string, b: string, d: string, j: nat)
    requires OccursAt(a + b, d, j) && |a| <= j
    ensures OccursAt(b, d, j - |a|) && (a + b)[j..] == b[j - |a|..]
  {
    assert (a + b)[j..j + |d|] == b[j - |a|..j - |a| + |d|];
  }

  lemma NoCrlf(s: string)
    requires '\r' !in s
    ensures FindFrom(s, CRLF, 0).None?
  {
    match FindFrom(s, CRLF, 0)
    case None =>
    case Some(k) => FirstOfSlice(s, CRLF, k);
  }

  lemma FirstOfSlice(s: string, p: string, k: nat)
    requires OccursAt(s, p, k) && p != ""
    ensures k < |s| && s[k] == p[0]
  {
    assert s[k..k + |p|][0] == s[k];
  }

  lemma SliceOfSlice(s: string, a: nat, b: nat, x: nat, y: nat)
    requires a <= b <= |s| && x <= y <= b - a
    ensures s[a..b][x..y] == s[a + x..a + y]
  {
    var t := s[a..b];
    assert forall i :: 0 <= i < y - x ==> t[x..y][i] == s[a + x..a + y][i];
  }

  lemma Assoc(a: string, b: string, c: string)
    ensures a + b + c == a + (b + c)
  {
  }

  predicate Contains(t: string, w: string) {
    w <= t || (t != "" && Contains(t[1..], w))
  }

  predicate IsBlank(c: char) { c == ' ' || c == '\t' }

  function TrimLeft(s: string): (r: string)
    ensures r == "" || !IsBlank(r[0])
    ensures |r| <= |s|
  {
    if s != "" && IsBlank(s[0]) then TrimLeft(s[1..]) else s
  }

  function TrimRight(s: string): (r: string)
    ensures r == "" || !IsBlank(r[|r| - 1])
    ensures |r| <= |s|
  {
    if s != "" && IsBlank(s[|s| - 1]) then TrimRight(s[..|s| - 1]) else s
  }

  lemma {:induction false} TrimRightPrefix(s: string)
    ensures TrimRight(s) == s[..|TrimRight(s)|]
  {
    if s != "" && IsBlank(s[|s| - 1]) {
      TrimRightPrefix(s[..|s| - 1]);
    }
  }

  lemma TrimRightRemovesBlanks(s: string, i: nat)
    requires |TrimRight(s)| <= i < |s|
    ensures IsBlank(s[i])
  {
    if i < |s| - 1 {
      TrimRightRemovesBlanks(s[..|s| - 1], i);
    }
  }

  lemma TrimRightCovers(s: string, i: nat)
    requires i < |s| && !IsBlank(s[i])
    ensures i < |TrimRight(s)| && TrimRight(s)[i] == s[i]
  {
    if |TrimRight(s)| <= i {
      TrimRightRemovesBlanks(s, i);
    }
  }

  lemma TrimRightSame(s: string)
    requires s == "" || !IsBlank(s[|s| - 1])
    ensures TrimRight(s) == s
  {
  }

  /** `trim_copy`. */
  function Trim(s: string): string { TrimRight(TrimLeft(s)) }

  predicate Trimmed(s: string) {
    s == "" || (!IsBlank(s[0]) && !IsBlank(s[|s| - 1]))
  }

  lemma TrimTrimmed(s: string)
    ensures Trimmed(Trim(s))
    ensures Trimmed(s) ==> Trim(s) == s
  {
    TrimRightPrefix(TrimLeft(s));
    if TrimLeft(s) != "" {
      assert TrimRight(TrimLeft(s)) != "" ==> TrimRight(TrimLeft(s))[0] == TrimLeft(s)[0];
    }
  }

  function ToLower(c: char): char {
    if 'A' <= c <= 'Z' then ((c as int) + 32) as char else c
  }

  predicate EqualIgnoringCase(a: string, b: string) {
    |a| == |b| && forall i :: 0 <= i < |a| ==> ToLower(a[i]) == ToLower(b[i])
  }

  predicate StartsWithIgnoringCase(s: string, p: string) {
    |p| <= |s| && EqualIgnoringCase(s[..|p|], p)
  }

  predicate IsDigit(c: char) { '0' <= c <= '9' }

  predicate IsAlnum(c: char) { IsDigit(c) || 'a' <= c <= 'z' || 'A' <= c <= 'Z' }

  function Concat(parts: seq<string>): string {
    if parts == [] then "" else parts[0] + Concat(parts[1..])
  }

  /** What `split` hands to its callback for one piece: the trimmed text, unless nothing is left. */
  function Piece(s: string): seq<string> {
    if Trim(s) == "" then [] else [Trim(s)]
  }

  lemma TrimmedPiece(s: string)
    requires s != "" && Trimmed(s)
    ensures Piece(s) == [s]
  {
    TrimTrimmed(s);
  }

  /** Everything `split(s, d)` hands to its callback, in order. */
  function Pieces(s: string, d: char): seq<string> {
    match FindChar(s, d)
    case None => Piece(s)
    case Some(k) => Piece(s[..k]) + Pieces(s[k + 1..], d)
  }

  lemma PiecesOfOne(s: string, d: char)
    requires d !in s
    ensures Pieces(s, d) == Piece(s)
  {
    assert FindChar(s, d).None?;
  }

  lemma PiecesOfMore(a: string, d: char, b: string)
    requires d !in a
    ensures Pieces(a + [d] + b, d) == Piece(a) + Pieces(b, d)
  {
    var s := a + [d] + b;
    FindCharAt(a, d, b);
    assert s[..|a|] == a && s[|a| + 1..] == b;
  }
}
