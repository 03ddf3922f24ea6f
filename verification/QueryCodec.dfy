/** The query codec: `encode_query_param` against `decode_url`, and `params_to_query_str` against
    `parse_query_text`. */
module QueryCodec {
  import opened Options
  import opened Text
  import opened UrlCodec

  // ---- One value ----

  /** The characters that `encode_query_param` leaves alone, in the "C" locale. */
  predicate Unreserved(c: char) {
    IsAlnum(c) || c == '-' || c == '_' || c == '.' || c == '!' || c == '~' || c == '*' || c == '\''
    || c == '(' || c == ')'
  }

  function UpperHex(d: nat): (c: char)
    requires d < 16
    ensures HexDigit(c) == Some(d) && c != 'u'
  {
    if d < 10 then (d + '0' as int) as char else (d - 10 + 'A' as int) as char
  }

  function EncodedChar(c: char): string
    requires IsByte(c)
  {
    if Unreserved(c) then [c] else ['%', UpperHex(c as int / 16), UpperHex(c as int % 16)]
  }

  function Encoded(v: string): string
    requires IsBytes(v)
  {
    if v == "" then "" else EncodedChar(v[0]) + Encoded(v[1..])
  }

  lemma HexPair(s: string, hi: nat, lo: nat)
    requires |s| >= 3 && s[0] == '%' && hi < 16 && lo < 16 && s[1] == UpperHex(hi) && s[2] == UpperHex(lo)
    ensures EscapeAt(s) == Some((3, [(16 * hi + lo) as char]))
  {
    assert HexValue(s, 1, 1) == Some(hi);
    assert HexValue(s, 1, 2) == Some(16 * hi + lo);
  }

  lemma DecodeEncodedChar(c: char, rest: string, plusIsSpace: bool)
    requires IsByte(c)
    ensures DecodeUrl(EncodedChar(c) + rest, plusIsSpace) == [c] + DecodeUrl(rest, plusIsSpace)
  {
    var e := EncodedChar(c);
    var s := e + rest;
    assert s[|e|..] == rest;
    if Unreserved(c) {
      assert EscapeAt(s).None?;
    } else {
      HexPair(s, c as int / 16, c as int % 16);
    }
  }

  /** Decoding inverts encoding for every byte string, whether or not plus signs become spaces. */
  lemma {:induction false} DecodeEncoded(v: string, plusIsSpace: bool)
    requires IsBytes(v)
    ensures DecodeUrl(Encoded(v), plusIsSpace) == v
  {
    if v != "" {
      DecodeEncoded(v[1..], plusIsSpace);
      DecodeEncodedChar(v[0], Encoded(v[1..]), plusIsSpace);
      assert v == [v[0]] + v[1..];
    }
  }

  // ---- Parameters ----

  datatype Param = Param(key: string, value: string)

  predicate ByteValues(ps: seq<Param>) { forall i :: 0 <= i < |ps| ==> IsBytes(ps[i].value) }

  function Printed(p: Param): string
    requires IsBytes(p.value)
  {
    p.key + ("=" + Encoded(p.value))
  }

  function PrintedAll(ps: seq<Param>): (r: seq<string>)
    requires ByteValues(ps)
    ensures |r| == |ps|
  {
    if ps == [] then [] else [Printed(ps[0])] + PrintedAll(ps[1..])
  }

  /** `params_to_query_str`. */
  function Query(ps: seq<Param>): string
    requires ByteValues(ps)
  {
    if ps == [] then ""
    else if |ps| == 1 then Printed(ps[0])
    else Printed(ps[0]) + ("&" + Query(ps[1..]))
  }

  /** The order of `std::string`. */
  predicate Less(a: string, b: string) {
    b != "" && (a == "" || a[0] < b[0] || (a[0] == b[0] && Less(a[1..], b[1..])))
  }

  /** `emplace` of a multimap, written as the sequence it iterates over: behind all equal keys. */
  function Emplace(ps: seq<Param>, p: Param): seq<Param> {
    if ps == [] then [p]
    else if Less(p.key, ps[0].key) then [p] + ps
    else [ps[0]] + Emplace(ps[1..], p)
  }

  predicate NoneAfter(ps: seq<Param>, key: string) {
    ps == [] || (!Less(key, ps[0].key) && NoneAfter(ps[1..], key))
  }

  /** A sequence that a multimap iterates over. */
  predicate Sorted(ps: seq<Param>) {
    ps == [] || (Sorted(ps[..|ps| - 1]) && NoneAfter(ps[..|ps| - 1], ps[|ps| - 1].key))
  }

  /** The key and the value of a piece; a piece without a key is dropped. */
  function ReadParam(piece: string): Option<Param> {
    match FindChar(piece, '=')
    case None => if piece == "" then None else Some(Param(DecodeUrl(piece, true), DecodeUrl("", true)))
    case Some(k) => if k == 0 then None else Some(Param(DecodeUrl(piece[..k], true), DecodeUrl(piece[k + 1..], true)))
  }

  /** The callback of `parse_query_text` over all pieces: a piece seen before is skipped. */
  function ReadPieces(pieces: seq<string>, cache: set<string>, ps: seq<Param>): seq<Param>
    decreases |pieces|
  {
    if pieces == [] then ps
    else if pieces[0] in cache then ReadPieces(pieces[1..], cache, ps)
    else
      ReadPieces(pieces[1..], cache + {pieces[0]},
                 match ReadParam(pieces[0]) case None => ps case Some(p) => Emplace(ps, p))
  }

  /** `parse_query_text` into an empty multimap. */
  function ParseQuery(s: string): seq<Param> { ReadPieces(Pieces(s, '&'), {}, []) }

  // ---- Round trip ----

  /** A key that is read back as it was written. */
  predicate PlainKey(k: string) {
    k != "" && !IsBlank(k[0]) && '&' !in k && '=' !in k && '+' !in k && !HasEscape(k)
  }

  predicate PlainKeys(ps: seq<Param>) { forall i :: 0 <= i < |ps| ==> PlainKey(ps[i].key) }

  predicate Distinct(ps: seq<Param>) {
    ps == [] || (ps[0] !in ps[1..] && Distinct(ps[1..]))
  }

  /** Non-empty keys of unreserved characters are plain. */
  lemma UnreservedPlain(k: string)
    requires k != "" && forall i :: 0 <= i < |k| ==> Unreserved(k[i])
    ensures PlainKey(k)
  {
    NoPercent(k);
  }

  lemma {:induction false} NoPercent(k: string)
    requires '%' !in k
    ensures !HasEscape(k)
  {
    if k != "" {
      NoPercent(k[1..]);
    }
  }

  lemma {:induction false} EncodedClean(v: string)
    requires IsBytes(v)
    ensures '&' !in Encoded(v) && '=' !in Encoded(v)
    ensures forall i :: 0 <= i < |Encoded(v)| ==> !IsBlank(Encoded(v)[i])
  {
    if v != "" {
      EncodedClean(v[1..]);
      CharClean(v[0]);
    }
  }

  lemma CharClean(c: char)
    requires IsByte(c)
    ensures '&' !in EncodedChar(c) && '=' !in EncodedChar(c)
    ensures forall i :: 0 <= i < |EncodedChar(c)| ==> !IsBlank(EncodedChar(c)[i])
  {
    DigitClean(c as int / 16);
    DigitClean(c as int % 16);
  }

  lemma DigitClean(d: nat)
    requires d < 16
    ensures UpperHex(d) != '&' && UpperHex(d) != '=' && !IsBlank(UpperHex(d))
  {
  }

  /** A printed parameter with a plain key is read back. */
  lemma ReadPrinted(p: Param)
    requires PlainKey(p.key) && IsBytes(p.value)
    ensures ReadParam(Printed(p)) == Some(p)
  {
    var piece, e := Printed(p), Encoded(p.value);
    assert piece == p.key + ['='] + e;
    FindCharAt(p.key, '=', e);
    assert piece[..|p.key|] == p.key && piece[|p.key| + 1..] == e;
    DecodeIdentity(p.key, true);
    DecodeEncoded(p.value, true);
  }

  lemma KeyAndText(key: string, e: string)
    requires key != "" && !IsBlank(key[0]) && '&' !in key && '&' !in e
    requires forall i :: 0 <= i < |e| ==> !IsBlank(e[i])
    ensures '&' !in key + ("=" + e) && Trimmed(key + ("=" + e))
  {
  }

  lemma PrintedPiece(p: Param)
    requires PlainKey(p.key) && IsBytes(p.value)
    ensures '&' !in Printed(p) && Piece(Printed(p)) == [Printed(p)]
  {
    EncodedClean(p.value);
    KeyAndText(p.key, Encoded(p.value));
    TrimmedPiece(Printed(p));
  }

  lemma PiecesFirst(a: string, rest: string)
    requires '&' !in a
    ensures Pieces(a + ("&" + rest), '&') == Piece(a) + Pieces(rest, '&')
  {
    assert a + ("&" + rest) == a + ['&'] + rest;
    PiecesOfMore(a, '&', rest);
  }

  lemma {:induction false} QueryPieces(ps: seq<Param>)
    requires PlainKeys(ps) && ByteValues(ps)
    ensures Pieces(Query(ps), '&') == PrintedAll(ps)
  {
    if ps != [] {
      PrintedPiece(ps[0]);
      if |ps| == 1 {
        assert ps[1..] == [];
        PiecesOfOne(Printed(ps[0]), '&');
      } else {
        QueryPieces(ps[1..]);
        PiecesFirst(Printed(ps[0]), Query(ps[1..]));
      }
    } else {
      PiecesOfOne("", '&');
    }
  }

  lemma {:induction false} EmplaceAtEnd(ps: seq<Param>, p: Param)
    requires NoneAfter(ps, p.key)
    ensures Emplace(ps, p) == ps + [p]
  {
    if ps != [] {
      EmplaceAtEnd(ps[1..], p);
      assert ps + [p] == [ps[0]] + (ps[1..] + [p]);
    }
  }

  lemma {:induction false} SortedPrefix(ps: seq<Param>, k: nat)
    requires k <= |ps| && Sorted(ps)
    ensures Sorted(ps[..k])
    decreases |ps|
  {
    if k < |ps| {
      SortedPrefix(ps[..|ps| - 1], k);
      assert ps[..|ps| - 1][..k] == ps[..k];
    } else {
      assert ps[..k] == ps;
    }
  }

  /** The next parameter of a sorted sequence goes to the end. */
  lemma NextAtEnd(ps: seq<Param>, i: nat)
    requires i < |ps| && Sorted(ps)
    ensures Emplace(ps[..i], ps[i]) == ps[..i + 1]
  {
    SortedPrefix(ps, i + 1);
    assert ps[..i + 1][..i] == ps[..i];
    EmplaceAtEnd(ps[..i], ps[i]);
  }

  lemma PrintedOnce(p: Param, q: Param)
    requires PlainKey(p.key) && IsBytes(p.value) && PlainKey(q.key) && IsBytes(q.value)
    ensures Printed(p) == Printed(q) ==> p == q
  {
    ReadPrinted(p);
    ReadPrinted(q);
  }

  /** The pieces are read as the parameters, one by one. */
  ghost predicate ReadAs(pieces: seq<string>, ps: seq<Param>) {
    && |pieces| == |ps|
    && (forall k :: 0 <= k < |ps| ==> ReadParam(pieces[k]) == Some(ps[k]))
    && (forall k, l :: 0 <= k < l < |ps| ==> pieces[k] != pieces[l])
  }

  lemma ReadOne(pieces: seq<string>, i: nat, cache: set<string>, ps: seq<Param>, p: Param)
    requires i < |pieces| && pieces[i] !in cache && ReadParam(pieces[i]) == Some(p)
    ensures ReadPieces(pieces[i..], cache, ps) == ReadPieces(pieces[i + 1..], cache + {pieces[i]}, Emplace(ps, p))
  {
    assert pieces[i..][1..] == pieces[i + 1..];
  }

  lemma {:induction false} ReadFrom(pieces: seq<string>, ps: seq<Param>, i: nat, cache: set<string>)
    requires ReadAs(pieces, ps) && Sorted(ps) && i <= |ps|
    requires forall k :: i <= k < |ps| ==> pieces[k] !in cache
    ensures ReadPieces(pieces[i..], cache, ps[..i]) == ps
    decreases |ps| - i
  {
    if i == |ps| {
      assert ps[..i] == ps;
    } else {
      ReadOne(pieces, i, cache, ps[..i], ps[i]);
      NextAtEnd(ps, i);
      ReadFrom(pieces, ps, i + 1, cache + {pieces[i]});
    }
  }

  lemma ReadAll(pieces: seq<string>, ps: seq<Param>)
    requires ReadAs(pieces, ps) && Sorted(ps)
    ensures ReadPieces(pieces, {}, []) == ps
  {
    assert pieces[0..] == pieces && ps[..0] == [];
    ReadFrom(pieces, ps, 0, {});
  }

  lemma {:induction false} DistinctAt(ps: seq<Param>, k: nat, l: nat)
    requires k < l < |ps| && Distinct(ps)
    ensures ps[k] != ps[l]
  {
    if k > 0 {
      DistinctAt(ps[1..], k - 1, l - 1);
    } else {
      assert ps[l] == ps[1..][l - 1];
    }
  }

  lemma {:induction false} PrintedAllAt(ps: seq<Param>, k: nat)
    requires k < |ps| && ByteValues(ps)
    ensures PrintedAll(ps)[k] == Printed(ps[k])
  {
    if k > 0 {
      PrintedAllAt(ps[1..], k - 1);
    }
  }

  lemma PrintedReadAs(ps: seq<Param>)
    requires Distinct(ps) && PlainKeys(ps) && ByteValues(ps)
    ensures ReadAs(PrintedAll(ps), ps)
  {
    forall k | 0 <= k < |ps|
      ensures ReadParam(PrintedAll(ps)[k]) == Some(ps[k])
    {
      PrintedAllAt(ps, k);
      ReadPrinted(ps[k]);
    }
    forall k, l | 0 <= k < l < |ps|
      ensures PrintedAll(ps)[k] != PrintedAll(ps)[l]
    {
      DistinctAt(ps, k, l);
      PrintedAllAt(ps, k);
      PrintedAllAt(ps, l);
      PrintedOnce(ps[k], ps[l]);
    }
  }

  /** Parsing a printed multimap of distinct parameters with plain keys gives it back. */
  lemma ParseInvertsQuery(ps: seq<Param>)
    requires Sorted(ps) && Distinct(ps) && PlainKeys(ps) && ByteValues(ps)
    ensures ParseQuery(Query(ps)) == ps
  {
    QueryPieces(ps);
    PrintedReadAs(ps);
    ReadAll(PrintedAll(ps), ps);
  }

  // ---- When a single parameter is read back ----

  /** The text in front of the first '='. */
  function KeyText(piece: string): (r: string)
    ensures |r| <= |piece|
  {
    if piece == "" || piece[0] == '=' then "" else [piece[0]] + KeyText(piece[1..])
  }

  lemma {:induction false} KeyTextFound(piece: string)
    ensures KeyText(piece) == match FindChar(piece, '=') case None => piece case Some(k) => piece[..k]
  {
    if piece != "" && piece[0] != '=' {
      KeyTextFound(piece[1..]);
      assert piece == [piece[0]] + piece[1..];
      match FindChar(piece[1..], '=')
      case None =>
      case Some(k) => assert piece[..k + 1] == [piece[0]] + piece[1..][..k];
    }
  }

  /** A key that is read is no longer than the text it was read from. */
  lemma ReadKeyShrinks(piece: string)
    requires ReadParam(piece).Some?
    ensures ReadParam(piece).value.key == DecodeUrl(KeyText(piece), true) && KeyText(piece) != ""
  {
    KeyTextFound(piece);
  }

  predicate KeysBelow(pieces: seq<string>, n: nat) {
    pieces == [] || (|KeyText(pieces[0])| < n && KeysBelow(pieces[1..], n))
  }

  predicate ParamsBelow(ps: seq<Param>, n: nat) {
    ps == [] || (|ps[0].key| < n && ParamsBelow(ps[1..], n))
  }

  lemma {:induction false} EmplaceBelow(ps: seq<Param>, p: Param, n: nat)
    requires ParamsBelow(ps, n) && |p.key| < n
    ensures ParamsBelow(Emplace(ps, p), n)
  {
    if ps != [] {
      EmplaceBelow(ps[1..], p, n);
      assert ([p] + ps)[1..] == ps;
      assert ([ps[0]] + Emplace(ps[1..], p))[1..] == Emplace(ps[1..], p);
    } else {
      assert [p][1..] == [];
    }
  }

  lemma {:induction false} ReadBelow(pieces: seq<string>, cache: set<string>, ps: seq<Param>, n: nat)
    requires KeysBelow(pieces, n) && ParamsBelow(ps, n)
    ensures ParamsBelow(ReadPieces(pieces, cache, ps), n)
    decreases |pieces|
  {
    if pieces != [] {
      if pieces[0] in cache {
        ReadBelow(pieces[1..], cache, ps, n);
      } else {
        var r := ReadParam(pieces[0]);
        if r.Some? {
          ReadKeyShrinks(pieces[0]);
          EmplaceBelow(ps, r.value, n);
        }
        ReadBelow(pieces[1..], cache + {pieces[0]}, match r case None => ps case Some(p) => Emplace(ps, p), n);
      }
    }
  }

  lemma {:induction false} KeyTextAtMost(a: string, b: string)
    ensures |KeyText(a + ("=" + b))| <= |a|
    ensures '=' in a ==> |KeyText(a + ("=" + b))| < |a|
    ensures '=' !in a ==> KeyText(a + ("=" + b)) == a
  {
    var s := a + ("=" + b);
    if a != "" {
      KeyTextAtMost(a[1..], b);
      assert s[1..] == a[1..] + ("=" + b);
      assert a == [a[0]] + a[1..];
    }
  }

  /** What trimming leaves of a key and its value. */
  lemma TrimmedKey(k: string, e: string)
    requires forall i :: 0 <= i < |e| ==> !IsBlank(e[i])
    ensures Trim(k + ("=" + e)) == TrimLeft(k) + ("=" + e)
  {
    TrimLeftOf(k, "=" + e);
    var t := TrimLeft(k) + ("=" + e);
    assert t[|t| - 1] == if e == "" then '=' else e[|e| - 1];
    TrimRightSame(t);
  }

  lemma TrimLeftStep(s: string)
    requires s != ""
    ensures TrimLeft(s) == if IsBlank(s[0]) then TrimLeft(s[1..]) else s
  {
  }

  lemma {:induction false} TrimLeftOf(k: string, rest: string)
    requires rest != "" && !IsBlank(rest[0])
    ensures TrimLeft(k + rest) == TrimLeft(k) + rest
  {
    if k == "" {
      assert k + rest == rest;
      TrimLeftStep(rest);
    } else {
      assert (k + rest)[0] == k[0] && (k + rest)[1..] == k[1..] + rest;
      TrimLeftStep(k);
      TrimLeftStep(k + rest);
      if IsBlank(k[0]) {
        TrimLeftOf(k[1..], rest);
      }
    }
  }

  lemma LastPiece(k: string, e: string)
    requires '&' !in k && '&' !in e && forall i :: 0 <= i < |e| ==> !IsBlank(e[i])
    ensures Pieces(k + ("=" + e), '&') == [TrimLeft(k) + ("=" + e)]
  {
    TrimmedKey(k, e);
    PiecesOfOne(k + ("=" + e), '&');
  }

  lemma OneBelow(piece: string, n: nat)
    requires |KeyText(piece)| < n
    ensures KeysBelow([piece], n)
  {
  }

  lemma {:induction false} KeysBelowJoin(a: seq<string>, b: seq<string>, n: nat)
    requires KeysBelow(a, n) && KeysBelow(b, n)
    ensures KeysBelow(a + b, n)
  {
    if a == [] {
      assert a + b == b;
    } else {
      KeysBelowJoin(a[1..], b, n);
      assert (a + b)[1..] == a[1..] + b;
    }
  }

  lemma SplitAtAmpersand(k: string, i: nat, rest: string)
    requires FindChar(k, '&') == Some(i)
    ensures k + rest == k[..i] + ("&" + (k[i + 1..] + rest)) && '&' !in k[..i]
  {
    FindCharFirst(k, '&');
    assert k == k[..i] + ("&" + k[i + 1..]);
  }

  /** All keys read from a parameter are short when its key has an ampersand, or when they are allowed to
      be longer than the key. */
  lemma {:induction false} PieceKeysBelow(k: string, e: string, n: nat)
    requires '&' !in e && forall i :: 0 <= i < |e| ==> !IsBlank(e[i])
    requires |k| < n || (|k| == n && '&' in k)
    ensures KeysBelow(Pieces(k + ("=" + e), '&'), n)
    decreases |k|
  {
    FindCharFirst(k, '&');
    match FindChar(k, '&')
    case None =>
      LastPiece(k, e);
      KeyTextAtMost(TrimLeft(k), e);
      OneBelow(TrimLeft(k) + ("=" + e), n);
    case Some(i) =>
      SplitAtAmpersand(k, i, "=" + e);
      PiecesFirst(k[..i], k[i + 1..] + ("=" + e));
      PieceKeysBelow(k[i + 1..], e, n);
      if Piece(k[..i]) != [] {
        OneBelow(Trim(k[..i]), n);
      }
      KeysBelowJoin(Piece(k[..i]), Pieces(k[i + 1..] + ("=" + e), '&'), n);
  }

  /** A key that is no longer in the text: nothing with it is read. */
  lemma KeyLost(k: string, e: string)
    requires '&' !in e && forall i :: 0 <= i < |e| ==> !IsBlank(e[i])
    requires '&' in k
    ensures ParamsBelow(ParseQuery(k + ("=" + e)), |k|)
  {
    PieceKeysBelow(k, e, |k|);
    ReadBelow(Pieces(k + ("=" + e), '&'), {}, [], |k|);
  }

  /** A single parameter is read back exactly when its key is plain. */
  lemma SingleParamIff(p: Param)
    requires IsBytes(p.value)
    ensures ParseQuery(Query([p])) == [p] <==> PlainKey(p.key)
  {
    var k, e := p.key, Encoded(p.value);
    EncodedClean(p.value);
    if PlainKey(k) {
      SingleSorted(p);
      ParseInvertsQuery([p]);
    } else if '&' in k {
      KeyLost(k, e);
    } else {
      LastPiece(k, e);
      var piece := TrimLeft(k) + ("=" + e);
      assert ReadPieces([piece], {}, []) == match ReadParam(piece) case None => [] case Some(q) => [q];
      if ReadParam(piece).Some? {
        ReadKeyShrinks(piece);
        KeyTextAtMost(TrimLeft(k), e);
        KeyDiffers(k, KeyText(piece));
      }
    }
  }

  lemma SingleSorted(p: Param)
    ensures Sorted([p]) && Distinct([p])
  {
    assert [p][..0] == [] && [p][1..] == [];
  }

  lemma KeyDiffers(k: string, text: string)
    requires !PlainKey(k) && '&' !in k && text != ""
    requires '=' in TrimLeft(k) ==> |text| < |TrimLeft(k)|
    requires '=' !in TrimLeft(k) ==> text == TrimLeft(k)
    ensures DecodeUrl(text, true) != k
  {
    if k != "" && !IsBlank(k[0]) && '=' !in k {
      DecodeIdentity(k, true);
    }
  }
}
