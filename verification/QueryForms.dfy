/** Query texts that the printer does not produce, and encoded text in header fields. */
module QueryForms {
  import opened Options
  import opened Text
  import opened UrlCodec
  import opened QueryCodec
  import Fields

  // ---- Parameters without an equals sign, without a key, and repeated ----

  /** A parameter without a value can be printed without its equals sign. */
  function PrintedAs(p: Param, bare: bool): string
    requires IsBytes(p.value)
  {
    if bare then p.key else Printed(p)
  }

  function QueryAs(ps: seq<Param>, bare: seq<bool>): string
    requires ByteValues(ps) && |bare| == |ps|
  {
    if ps == [] then ""
    else if |ps| == 1 then PrintedAs(ps[0], bare[0])
    else PrintedAs(ps[0], bare[0]) + ("&" + QueryAs(ps[1..], bare[1..]))
  }

  predicate MayBeBare(p: Param) { p.value == "" && Trimmed(p.key) }

  lemma BareRead(p: Param)
    requires PlainKey(p.key) && MayBeBare(p)
    ensures ReadParam(p.key) == Some(p) && '&' !in p.key && Piece(p.key) == [p.key]
  {
    DecodeIdentity(p.key, true);
    TrimmedPiece(p.key);
    assert FindChar(p.key, '=').None?;
  }

  lemma PieceAs(p: Param, bare: bool)
    requires PlainKey(p.key) && IsBytes(p.value) && (bare ==> MayBeBare(p))
    ensures var piece := PrintedAs(p, bare);
            ReadParam(piece) == Some(p) && '&' !in piece && Piece(piece) == [piece]
  {
    if bare {
      BareRead(p);
    } else {
      ReadPrinted(p);
      PrintedPiece(p);
    }
  }

  function PiecesAs(ps: seq<Param>, bare: seq<bool>): (r: seq<string>)
    requires ByteValues(ps) && |bare| == |ps|
    ensures |r| == |ps|
  {
    if ps == [] then [] else [PrintedAs(ps[0], bare[0])] + PiecesAs(ps[1..], bare[1..])
  }

  lemma {:induction false} PiecesAsAt(ps: seq<Param>, bare: seq<bool>, k: nat)
    requires ByteValues(ps) && |bare| == |ps| && k < |ps|
    ensures PiecesAs(ps, bare)[k] == PrintedAs(ps[k], bare[k])
    decreases |ps|
  {
    if k > 0 {
      PiecesAsAt(ps[1..], bare[1..], k - 1);
    }
  }

  lemma {:induction false} QueryPiecesAs(ps: seq<Param>, bare: seq<bool>)
    requires PlainKeys(ps) && ByteValues(ps) && |bare| == |ps|
    requires forall k :: 0 <= k < |ps| && bare[k] ==> MayBeBare(ps[k])
    ensures Pieces(QueryAs(ps, bare), '&') == PiecesAs(ps, bare)
    decreases |ps|
  {
    if ps == [] {
      PiecesOfOne("", '&');
    } else {
      PieceAs(ps[0], bare[0]);
      if |ps| == 1 {
        assert ps[1..] == [];
        PiecesOfOne(PrintedAs(ps[0], bare[0]), '&');
      } else {
        QueryPiecesAs(ps[1..], bare[1..]);
        PiecesFirst(PrintedAs(ps[0], bare[0]), QueryAs(ps[1..], bare[1..]));
      }
    }
  }

  lemma PiecesReadAs(ps: seq<Param>, bare: seq<bool>)
    requires Distinct(ps) && PlainKeys(ps) && ByteValues(ps) && |bare| == |ps|
    requires forall k :: 0 <= k < |ps| && bare[k] ==> MayBeBare(ps[k])
    ensures ReadAs(PiecesAs(ps, bare), ps)
  {
    var pieces := PiecesAs(ps, bare);
    forall k | 0 <= k < |ps|
      ensures ReadParam(pieces[k]) == Some(ps[k])
    {
      PieceAs(ps[k], bare[k]);
      PiecesAsAt(ps, bare, k);
    }
    forall k, l | 0 <= k < l < |ps|
      ensures pieces[k] != pieces[l]
    {
      DistinctAt(ps, k, l);
    }
  }

  /** The multimap is read back too if parameters without a value are written without the equals sign. */
  lemma BareKeysAreRead(ps: seq<Param>, bare: seq<bool>)
    requires Sorted(ps) && Distinct(ps) && PlainKeys(ps) && ByteValues(ps) && |bare| == |ps|
    requires forall k :: 0 <= k < |ps| && bare[k] ==> MayBeBare(ps[k])
    ensures ParseQuery(QueryAs(ps, bare)) == ps
  {
    QueryPiecesAs(ps, bare);
    PiecesReadAs(ps, bare);
    ReadAll(PiecesAs(ps, bare), ps);
  }

  lemma OnePieceDropped(piece: string)
    requires ReadParam(piece).None?
    ensures ReadPieces([piece], {}, []) == []
  {
    assert [piece][1..] == [];
  }

  /** A piece without a key gives nothing. */
  lemma KeylessDropped(v: string)
    requires '&' !in v
    ensures ParseQuery("=" + v) == []
  {
    var s := "=" + v;
    PiecesOfOne(s, '&');
    assert TrimLeft(s) == s;
    TrimRightCovers(s, 0);
    var piece := TrimRight(s);
    assert Pieces(s, '&') == [piece] && FindChar(piece, '=') == Some(0);
    OnePieceDropped(piece);
  }

  lemma {:induction false} ReadPiecesJoin(a: seq<string>, b: seq<string>, cache: set<string>, ps: seq<Param>)
    ensures ReadPieces(a + b, cache, ps) == ReadPieces(b, cache + (set x | x in a), ReadPieces(a, cache, ps))
    decreases |a|
  {
    if a == [] {
      assert a + b == b && cache + (set x | x in a) == cache;
    } else {
      assert (a + b)[1..] == a[1..] + b;
      assert cache + {a[0]} + (set x | x in a[1..]) == cache + (set x | x in a);
      if a[0] in cache {
        ReadPiecesJoin(a[1..], b, cache, ps);
        assert cache + {a[0]} == cache;
      } else {
        ReadPiecesJoin(a[1..], b, cache + {a[0]},
                       match ReadParam(a[0]) case None => ps case Some(p) => Emplace(ps, p));
      }
    }
  }

  lemma {:induction false} SeenAddNothing(pieces: seq<string>, cache: set<string>, ps: seq<Param>)
    requires forall k :: 0 <= k < |pieces| ==> pieces[k] in cache
    ensures ReadPieces(pieces, cache, ps) == ps
    decreases |pieces|
  {
    if pieces != [] {
      SeenAddNothing(pieces[1..], cache, ps);
    }
  }

  lemma {:induction false} PiecesJoin(a: string, b: string)
    ensures Pieces(a + ("&" + b), '&') == Pieces(a, '&') + Pieces(b, '&')
    decreases |a|
  {
    FindCharFirst(a, '&');
    match FindChar(a, '&')
    case None =>
      PiecesFirst(a, b);
      PiecesOfOne(a, '&');
    case Some(k) =>
      var front, back := a[..k], a[k + 1..];
      PiecesJoin(back, b);
      SplitText(a, k, "&" + b);
      PiecesFirst(front, back + ("&" + b));
      JoinedLater(Piece(front), Pieces(back, '&'), Pieces(b, '&'));
  }

  lemma JoinedLater(a: seq<string>, b: seq<string>, c: seq<string>)
    ensures a + (b + c) == a + b + c
  {
  }

  lemma SplitText(a: string, k: nat, rest: string)
    requires k < |a| && a[k] == '&'
    ensures a + rest == a[..k] + ("&" + (a[k + 1..] + rest))
  {
    assert a == a[..k] + ['&'] + a[k + 1..];
  }

  /** A query that repeats itself gives the same parameters: each text of a parameter counts once. */
  lemma RepetitionIgnored(s: string)
    ensures ParseQuery(s + ("&" + s)) == ParseQuery(s)
  {
    var pieces := Pieces(s, '&');
    PiecesJoin(s, s);
    ReadPiecesJoin(pieces, pieces, {}, []);
    SeenAddNothing(pieces, {} + (set x | x in pieces), ReadPieces(pieces, {}, []));
  }

  // ---- What is left alone ----

  const MARK: string := "-_.!~*'()"

  /** A text is its own encoding if and only if it has only letters, digits and the marks of section 2.3 of
      RFC 2396. */
  lemma {:induction false} EncodedSameIff(v: string)
    requires IsBytes(v)
    ensures Encoded(v) == v <==> forall i :: 0 <= i < |v| ==> IsAlnum(v[i]) || v[i] in MARK
    ensures |Encoded(v)| >= |v|
  {
    if v != "" {
      EncodedSameIff(v[1..]);
      assert v == [v[0]] + v[1..];
      if Unreserved(v[0]) {
        assert Encoded(v)[1..] == Encoded(v[1..]);
      }
      assert (forall i :: 0 <= i < |v| ==> IsAlnum(v[i]) || v[i] in MARK) <==>
             (IsAlnum(v[0]) || v[0] in MARK) &&
             forall i :: 0 <= i < |v[1..]| ==> IsAlnum(v[1..][i]) || v[1..][i] in MARK;
    }
  }

  // ---- Encoded text in header fields ----

  lemma {:induction false} EncodedVisible(v: string)
    requires IsBytes(v)
    ensures forall i :: 0 <= i < |Encoded(v)| ==> Fields.IsFieldVchar(Encoded(v)[i])
  {
    if v != "" {
      EncodedVisible(v[1..]);
      VisibleDigit(v[0] as int / 16);
      VisibleDigit(v[0] as int % 16);
    }
  }

  lemma VisibleDigit(d: nat)
    requires d < 16
    ensures Fields.IsFieldVchar(UpperHex(d))
  {
  }

  lemma FieldWith(key: string, v: string, verbatim: bool)
    requires Fields.IsToken(key) && IsBytes(v) && verbatim == Fields.KeptVerbatim(key)
    ensures Fields.ParseHeader(Fields.FieldLine(key, Encoded(v))) == Some((key, if verbatim then Encoded(v) else v))
  {
    EncodedVisible(v);
    Fields.FieldValueTrimmed(Encoded(v));
    Fields.ParsePrinted(key, Encoded(v));
    DecodeEncoded(v, false);
  }

  /** The value of a field is handed out decoded, but for the fields that are kept as they are. */
  lemma EncodedFieldRead(key: string, v: string)
    requires Fields.IsToken(key) && IsBytes(v)
    ensures Fields.ParseHeader(Fields.FieldLine(key, Encoded(v)))
         == Some((key, if Fields.IsVerbatimName(key) then Encoded(v) else v))
  {
    Fields.VerbatimIff(key);
    FieldWith(key, v, Fields.KeptVerbatim(key));
  }

  // ---- Unicode escapes ----

  predicate Continues(c: char) { 0x80 <= c as int < 0xC0 }

  /** The character that a sequence of bytes stands for (section 3 of RFC 3629). */
  function Utf8Value(b: string): Option<nat> {
    if |b| == 1 && b[0] as int < 0x80 then Some(b[0] as int)
    else if |b| == 2 && 0xC0 <= b[0] as int < 0xE0 && Continues(b[1]) then
      Some((b[0] as int - 0xC0) * 64 + (b[1] as int - 0x80))
    else if |b| == 3 && 0xE0 <= b[0] as int < 0xF0 && Continues(b[1]) && Continues(b[2]) then
      Some((b[0] as int - 0xE0) * 4096 + (b[1] as int - 0x80) * 64 + (b[2] as int - 0x80))
    else if |b| == 4 && 0xF0 <= b[0] as int < 0xF8 && Continues(b[1]) && Continues(b[2]) && Continues(b[3]) then
      Some((b[0] as int - 0xF0) * 262144 + (b[1] as int - 0x80) * 4096 + (b[2] as int - 0x80) * 64
           + (b[3] as int - 0x80))
    else None
  }

  /** A character of Unicode, other than a surrogate. */
  predicate IsScalar(code: nat) { code < 0xD800 || 0xE000 <= code < 0x110000 }

  lemma TwoBytes(code: nat)
    requires 0x80 <= code < 0x800
    ensures |Utf8(code)| == 2 && Utf8Value(Utf8(code)) == Some(code) && IsBytes(Utf8(code))
  {
  }

  lemma ThreeBytes(code: nat)
    requires 0x800 <= code < 0x10000 && IsScalar(code)
    ensures |Utf8(code)| == 3 && Utf8Value(Utf8(code)) == Some(code) && IsBytes(Utf8(code))
  {
    var q := code / 64;
    assert code == q * 64 + code % 64 && q == q / 64 * 64 + q % 64 && q / 64 == code / 4096;
  }

  lemma FourBytes(code: nat)
    requires 0x10000 <= code < 0x110000
    ensures |Utf8(code)| == 4 && Utf8Value(Utf8(code)) == Some(code) && IsBytes(Utf8(code))
  {
    var q := code / 64;
    var r := q / 64;
    assert code == q * 64 + code % 64 && q == r * 64 + q % 64 && r == r / 64 * 64 + r % 64;
    assert r == code / 4096 && r / 64 == code / 262144;
  }

  /** The bytes emitted for a code are those that stand for it, in the shortest form, and there are none for
      what is no character. */
  lemma Utf8Decodes(code: nat)
    ensures IsScalar(code) ==> Utf8Value(Utf8(code)) == Some(code) && IsBytes(Utf8(code))
    ensures IsScalar(code) ==>
              |Utf8(code)| == if code < 0x80 then 1 else if code < 0x800 then 2 else if code < 0x10000 then 3 else 4
    ensures !IsScalar(code) ==> Utf8(code) == ""
  {
    if 0x80 <= code < 0x800 {
      TwoBytes(code);
    } else if 0x800 <= code < 0x10000 && IsScalar(code) {
      ThreeBytes(code);
    } else if 0x10000 <= code < 0x110000 {
      FourBytes(code);
    }
  }

  /** The code of four hexadecimal digits. */
  function FourDigits(a: nat, b: nat, c: nat, d: nat): nat { ((a * 16 + b) * 16 + c) * 16 + d }

  function UnicodeEscape(a: nat, b: nat, c: nat, d: nat): string
    requires a < 16 && b < 16 && c < 16 && d < 16
  {
    ['%', 'u', UpperHex(a), UpperHex(b), UpperHex(c), UpperHex(d)]
  }

  lemma EscapeHere(s: string, a: nat, b: nat, c: nat, d: nat)
    requires a < 16 && b < 16 && c < 16 && d < 16 && UnicodeEscape(a, b, c, d) <= s
    ensures EscapeAt(s) == Some((6, Utf8(FourDigits(a, b, c, d))))
  {
    var e := UnicodeEscape(a, b, c, d);
    assert forall i :: 0 <= i < 6 ==> s[i] == e[i];
    assert HexValue(s, 2, 1) == Some(a);
    assert HexValue(s, 2, 2) == Some(16 * a + b);
    assert HexValue(s, 2, 3) == Some(16 * (16 * a + b) + c);
  }

  /** A Unicode escape becomes the bytes of its character. */
  lemma UnicodeEscapeRead(a: nat, b: nat, c: nat, d: nat, rest: string, plusIsSpace: bool)
    requires a < 16 && b < 16 && c < 16 && d < 16
    ensures DecodeUrl(UnicodeEscape(a, b, c, d) + rest, plusIsSpace)
         == Utf8(FourDigits(a, b, c, d)) + DecodeUrl(rest, plusIsSpace)
  {
    var s := UnicodeEscape(a, b, c, d) + rest;
    EscapeHere(s, a, b, c, d);
    assert s[6..] == rest;
  }

  /** Lower-case digits mean the same. */
  lemma LowerCaseDigits(c: char)
    ensures HexDigit(ToLower(c)) == HexDigit(c)
  {
  }

  /** In queries a plus sign is a space. */
  lemma PlusRead(rest: string)
    ensures DecodeUrl("+" + rest, true) == " " + DecodeUrl(rest, true)
    ensures DecodeUrl("+" + rest, false) == "+" + DecodeUrl(rest, false)
  {
    assert ("+" + rest)[1..] == rest;
  }
}
