/** `GlobalMetadataStore::insert_xml_base`: the scan for the xml:base attribute of the Dataset tag, and
    what the rewritten document is. */
module XmlBase {
  import opened Options
  import opened Text

  const LITERAL: string := "xml:base"

  /** Where the scan of a tag stops: at its '>', behind the literal, or nowhere. */
  datatype Place = End(at: nat) | Found(at: nat) | Nowhere

  function Moved(p: Place, n: nat): Place {
    match p
    case End(k) => End(k + n)
    case Found(k) => Found(k + n)
    case Nowhere => Nowhere
  }

  /** How much of the literal is matched after one more character. */
  function Next(j: nat, c: char): (r: nat)
    requires j < 8
    ensures r <= 8
  {
    if c == LITERAL[j] then j + 1 else 0
  }

  /** The scanning loop, with the first `j` characters of the literal just seen. */
  function Scan(t: string, j: nat): (r: Place)
    requires j <= 8
    ensures r.End? ==> r.at < |t| && t[r.at] == '>'
    ensures r.Found? ==> r.at < |t| && t[r.at] != '>'
  {
    if t == "" then Nowhere
    else if t[0] == '>' then End(0)
    else if j == 8 then Found(0)
    else Moved(Scan(t[1..], Next(j, t[0])), 1)
  }

  /** One past the first `c`. */
  function Past(t: string, c: char): (r: Option<nat>)
    ensures r.Some? ==> 0 < r.value <= |t|
  {
    if t == "" then None
    else if t[0] == c then Some(1)
    else
      match Past(t[1..], c)
      case None => None
      case Some(k) => Some(k + 1)
  }

  function Shifted(r: Option<nat>, n: nat): Option<nat> {
    match r
    case None => None
    case Some(k) => Some(n + k)
  }

  /** One past the closing quote of a text that is quoted somewhere ahead. */
  function QuotedEnd(t: string): (r: Option<nat>)
    ensures r.Some? ==> 0 < r.value <= |t|
  {
    match Past(t, '"')
    case None => None
    case Some(a) => Shifted(Past(t[a..], '"'), a)
  }

  /** One past the closing quote of the value that follows. */
  function ValueEnd(t: string): (r: Option<nat>)
    ensures r.Some? ==> 0 < r.value <= |t|
  {
    match Past(t, '=')
    case None => None
    case Some(a) => Shifted(QuotedEnd(t[a..]), a)
  }

  function Value(v: string): string { "=\"" + v + "\"" }

  function Attribute(v: string): string { " xml:base" + Value(v) }

  /** What is written for the part of the buffer behind the prolog. Without a stop nothing is written;
      `None` stands for reading beyond the buffer. */
  function Inserted(t: string, v: string): Option<string> { InsertedAt(t, Scan(t, 0), v) }

  function InsertedAt(t: string, p: Place, v: string): Option<string>
    requires p.Nowhere? || p.at <= |t|
  {
    match p
    case End(k) => Some(t[..k] + (Attribute(v) + t[k..]))
    case Found(k) => Replaced(t, k, ValueEnd(t[k..]), v)
    case Nowhere => Some("")
  }

  /** The text with the value from `k` up to its end replaced. */
  function Replaced(t: string, k: nat, length: Option<nat>, v: string): Option<string>
    requires k <= |t| && (length.Some? ==> k + length.value <= |t|)
  {
    match length
    case None => None
    case Some(e) => Some(t[..k] + (Value(v) + t[k + e..]))
  }

  // ---- The scan, piece by piece ----

  /** The state of the scan behind `u`, if it does not stop in `u`. */
  function Passed(u: string, j: nat): (r: Option<nat>)
    requires j <= 8
    ensures r.Some? ==> r.value <= 8
  {
    if u == "" then Some(j)
    else if u[0] == '>' || j == 8 then None
    else Passed(u[1..], Next(j, u[0]))
  }

  lemma {:induction false} ScanPassed(u: string, w: string, j: nat)
    requires j <= 8 && Passed(u, j).Some?
    ensures Scan(u + w, j) == Moved(Scan(w, Passed(u, j).value), |u|)
  {
    if u == "" {
      assert u + w == w;
    } else {
      ScanPassed(u[1..], w, Next(j, u[0]));
      assert (u + w)[1..] == u[1..] + w;
    }
  }

  /** In front of its stop the scan has passed; behind the literal it is in state 8. */
  lemma {:induction false} PassedToStop(t: string, j: nat)
    requires j <= 8 && !Scan(t, j).Nowhere?
    ensures Passed(t[..Scan(t, j).at], j).Some?
    ensures Scan(t, j).Found? ==> Passed(t[..Scan(t, j).at], j) == Some(8)
  {
    if t[0] != '>' && j < 8 {
      PassedToStop(t[1..], Next(j, t[0]));
      var k := Scan(t, j).at;
      assert t[..k][1..] == t[1..][..k - 1];
    }
  }

  lemma {:induction false} PassedJoin(u: string, w: string, j: nat)
    requires j <= 8 && Passed(u, j).Some?
    ensures Passed(u + w, j) == Passed(w, Passed(u, j).value)
  {
    if u == "" {
      assert u + w == w;
    } else {
      PassedJoin(u[1..], w, Next(j, u[0]));
      assert (u + w)[1..] == u[1..] + w;
    }
  }

  /** A stop in the first part of a text is the stop of the text. */
  lemma {:induction false} ScanPrefix(t: string, more: string, j: nat)
    requires j <= 8 && !Scan(t, j).Nowhere?
    ensures Scan(t + more, j) == Scan(t, j)
  {
    assert (t + more)[1..] == t[1..] + more;
    if t[0] != '>' && j < 8 {
      ScanPrefix(t[1..], more, Next(j, t[0]));
    }
  }

  lemma {:induction false} PastPrefix(t: string, more: string, c: char)
    ensures Past(t, c).Some? ==> Past(t + more, c) == Past(t, c)
  {
    if t != "" {
      PastPrefix(t[1..], more, c);
      assert (t + more)[1..] == t[1..] + more;
    }
  }

  lemma {:induction false} PastClean(w: string, c: char, more: string)
    requires c !in w
    ensures Past(w + ([c] + more), c) == Some(|w| + 1)
  {
    var t := w + ([c] + more);
    if w != "" {
      PastClean(w[1..], c, more);
      assert t[1..] == w[1..] + ([c] + more);
    }
  }

  /** The literal behind a space is found in whatever state. */
  lemma LiteralPassed(j: nat)
    requires j < 8
    ensures Passed(" xml:base", j) == Some(8)
  {
    var s := " xml:base";
    assert s[1..] == LITERAL;
    assert Passed(LITERAL, 0) == Some(8) by {
      LiteralFrom(0);
    }
  }

  lemma {:induction false} LiteralFrom(j: nat)
    requires j <= 8
    ensures Passed(LITERAL[j..], j) == Some(8)
    decreases 8 - j
  {
    if j < 8 {
      LiteralFrom(j + 1);
      assert LITERAL[j..][0] == LITERAL[j];
      assert LITERAL[j..][1..] == LITERAL[j + 1..];
      assert LITERAL[j] != '>';
    } else {
      assert LITERAL[8..] == "";
    }
  }

  // ---- The last insertion wins ----

  /** The tag ends right behind the literal, as in `<Dataset xml:base>`. */
  predicate EndsBare(t: string) {
    Scan(t, 0).End? && Passed(t[..Scan(t, 0).at], 0) == Some(8)
  }

  /** The value behind the literal ends at its first quote. */
  lemma ValueEndAt(a: string, more: string)
    requires '"' !in a
    ensures ValueEnd("=" + ("\"" + (a + ("\"" + more)))) == Some(|a| + 3)
  {
    var inner := a + ("\"" + more);
    var t := "\"" + inner;
    assert ("=" + t)[1..] == t && t[1..] == inner;
    assert Past("=" + t, '=') == Some(1) && Past(t, '"') == Some(1);
    assert "\"" + more == ['"'] + more;
    PastClean(a, '"', more);
  }

  lemma ValueThen(v: string, more: string)
    ensures Value(v) + more == "=" + ("\"" + (v + ("\"" + more)))
  {
  }

  /** Behind the literal, everything up to the closing quote is replaced. */
  lemma Rewrite(front: string, a: string, more: string, v: string)
    requires Passed(front, 0) == Some(8) && '"' !in a
    ensures Inserted(front + (Value(a) + more), v) == Some(front + (Value(v) + more))
  {
    var rest := Value(a) + more;
    var t := front + rest;
    ValueThen(a, more);
    ValueEndAt(a, more);
    ScanPassed(front, rest, 0);
    assert rest[0] == '=';
    assert Scan(t, 0) == Found(|front|);
    assert t[..|front|] == front && t[|front|..] == rest && t[|front| + (|a| + 3)..] == more;
  }

  /** Where a quote inside the value cuts it. */
  function Cut(v: string): (r: nat)
    ensures '"' in v ==> r < |v| && v[r] == '"'
    ensures r <= |v| && '"' !in v[..r]
  {
    if v == "" || v[0] == '"' then 0
    else
      assert v[..1 + Cut(v[1..])] == [v[0]] + v[1..][..Cut(v[1..])];
      1 + Cut(v[1..])
  }

  /** A value with a quote inside is replaced only up to that quote, and the rest of it stays. */
  lemma RewriteQuoted(front: string, quoted: string, more: string, v: string)
    requires Passed(front, 0) == Some(8) && '"' in quoted
    ensures Inserted(front + (Value(quoted) + more), v).Some?
    ensures |Inserted(front + (Value(quoted) + more), v).value| > |front + (Value(v) + more)|
  {
    var a, b := quoted[..Cut(quoted)], quoted[Cut(quoted) + 1..];
    QuotedValue(quoted, more);
    Rewrite(front, a, b + ("\"" + more), v);
  }

  lemma QuotedValue(quoted: string, more: string)
    requires '"' in quoted
    ensures Value(quoted) + more == Value(quoted[..Cut(quoted)]) + (quoted[Cut(quoted) + 1..] + ("\"" + more))
  {
    var a, b := quoted[..Cut(quoted)], quoted[Cut(quoted) + 1..];
    assert quoted == a + ("\"" + b);
    Requote("=\"", a, "\"", b, more);
  }

  lemma Requote(e: string, a: string, q: string, b: string, more: string)
    ensures (e + (a + (q + b)) + q) + more == (e + a + q) + (b + (q + more))
  {
  }

  lemma AddedIsBehindLiteral(front: string, v: string, more: string)
    ensures front + (Attribute(v) + more) == (front + " xml:base") + (Value(v) + more)
  {
  }

  /** The literal that is added is found the next time, unless the scan was behind a literal already. */
  lemma AddedLiteralPassed(front: string)
    requires Passed(front, 0).Some? && Passed(front, 0) != Some(8)
    ensures Passed(front + " xml:base", 0) == Some(8)
  {
    PassedJoin(front, " xml:base", 0);
    LiteralPassed(Passed(front, 0).value);
  }

  /** What an insertion leaves: text in front, the new value, and text behind. */
  lemma InsertedShape(t: string, v: string) returns (front: string, more: string)
    requires Inserted(t, v).Some? && !Scan(t, 0).Nowhere? && !EndsBare(t)
    ensures Passed(front, 0) == Some(8) && Inserted(t, v) == Some(front + (Value(v) + more))
    ensures forall w :: Inserted(t, w) == Some(front + (Value(w) + more))
  {
    var k := Scan(t, 0).at;
    PassedToStop(t, 0);
    if Scan(t, 0).End? {
      front, more := t[..k] + " xml:base", t[k..];
      AddedLiteralPassed(t[..k]);
      forall w
        ensures Inserted(t, w) == Some(front + (Value(w) + more))
      {
        AddedIsBehindLiteral(t[..k], w, more);
      }
    } else {
      front, more := t[..k], t[k + ValueEnd(t[k..]).value..];
    }
  }

  lemma BareDiffers(t: string, v1: string, v2: string)
    requires EndsBare(t)
    ensures Inserted(t, v1).Some? && Inserted(Inserted(t, v1).value, v2) != Inserted(t, v2)
  {
    var k := Scan(t, 0).at;
    var front, rest := t[..k], Attribute(v1) + t[k..];
    ScanPassed(front, rest, 0);
    assert rest[0] == ' ';
    var t1 := front + rest;
    assert Scan(t1, 0) == Found(k) && t1[..k] == front;
    if Inserted(t1, v2).Some? {
      assert Inserted(t1, v2).value[k] == '=';
      assert Inserted(t, v2).value[k] == ' ';
    }
  }

  /** Inserting one value and then another is inserting the other, exactly when the first has no quote in
      it and the tag does not end with a bare literal. */
  lemma LastWinsIff(t: string, v1: string, v2: string)
    requires Inserted(t, v1).Some? && !Scan(t, 0).Nowhere?
    ensures Inserted(Inserted(t, v1).value, v2) == Inserted(t, v2) <==> '"' !in v1 && !EndsBare(t)
  {
    if EndsBare(t) {
      BareDiffers(t, v1, v2);
    } else {
      var front, more := InsertedShape(t, v1);
      if '"' in v1 {
        RewriteQuoted(front, v1, more, v2);
      } else {
        Rewrite(front, v1, more, v2);
      }
    }
  }

  /** A tag that ends in a bare literal, as `<Dataset xml:base>`, keeps the first value. */
  lemma BareTagKeepsFirst(front: string, more: string, v1: string, v2: string)
    requires Passed(front, 0).Some? && Passed(front, 0) != Some(8)
    ensures var t := (front + " xml:base") + (">" + more);
            Inserted(t, v1).Some? && Inserted(Inserted(t, v1).value, v2) != Inserted(t, v2)
  {
    var bare, rest := front + " xml:base", ">" + more;
    AddedLiteralPassed(front);
    ScanPassed(bare, rest, 0);
    assert rest[0] == '>' && (bare + rest)[..|bare|] == bare;
    LastWinsIff(bare + rest, v1, v2);
  }

  // ---- Tags with attributes ----

  datatype Attr = Attr(name: string, value: string)

  function PrintedAttr(a: Attr): string { " " + (a.name + Value(a.value)) }

  function Printed(attrs: seq<Attr>): string {
    if attrs == [] then "" else PrintedAttr(attrs[0]) + Printed(attrs[1..])
  }

  /** The attributes with xml:base set to `v`: in its place, or at the end. */
  function WithBase(attrs: seq<Attr>, v: string): seq<Attr> {
    if attrs == [] then [Attr(LITERAL, v)]
    else if attrs[0].name == LITERAL then [Attr(LITERAL, v)] + attrs[1..]
    else [attrs[0]] + WithBase(attrs[1..], v)
  }

  /** Text in which the scan neither stops nor finds the literal. */
  predicate Quiet(u: string) { '>' !in u && !Contains(u, LITERAL) }

  /** The attributes in front of xml:base are quiet, and its value has no quote. */
  predicate Readable(attrs: seq<Attr>) {
    attrs == [] ||
    (if attrs[0].name == LITERAL then '"' !in attrs[0].value
     else Quiet(attrs[0].name + Value(attrs[0].value)) && Readable(attrs[1..]))
  }

  lemma {:induction false} ContainsBehind(a: string, u: string, w: string)
    ensures Contains(u, w) ==> Contains(a + u, w)
  {
    if a == "" {
      assert a + u == u;
    } else {
      ContainsBehind(a[1..], u, w);
      assert (a + u)[1..] == a[1..] + u;
    }
  }

  lemma ContainsFront(w: string, u: string)
    ensures Contains(w + u, w)
  {
  }

  lemma TakeOne(j: nat, u: string)
    requires j < 8 && u != "" && u[0] == LITERAL[j]
    ensures LITERAL[..j] + u == LITERAL[..j + 1] + u[1..]
  {
  }

  lemma NotComplete(j: nat, u: string)
    requires j < 8 && u != "" && u[0] == LITERAL[j] && !Contains(LITERAL[..j] + u, LITERAL)
    ensures j + 1 < 8
  {
    TakeOne(j, u);
    assert LITERAL[..8] == LITERAL;
    ContainsFront(LITERAL, u[1..]);
  }

  /** The scan passes text without '>' when the literal is not in it, counting what was matched before. */
  lemma {:induction false} QuietPassed(u: string, j: nat)
    requires j < 8 && '>' !in u && !Contains(LITERAL[..j] + u, LITERAL)
    ensures Passed(u, j).Some? && Passed(u, j).value < 8
  {
    if u != "" {
      if u[0] == LITERAL[j] {
        TakeOne(j, u);
        NotComplete(j, u);
        QuietPassed(u[1..], j + 1);
      } else {
        assert LITERAL[..j] + u == (LITERAL[..j] + [u[0]]) + u[1..];
        ContainsBehind(LITERAL[..j] + [u[0]], u[1..], LITERAL);
        assert LITERAL[..0] + u[1..] == u[1..];
        QuietPassed(u[1..], 0);
      }
    }
  }

  /** The scan is never behind the literal when a quiet attribute has passed. */
  lemma AttrPassed(front: string, a: Attr)
    requires Passed(front, 0).Some? && Passed(front, 0).value < 8
    requires Quiet(a.name + Value(a.value))
    ensures Passed(front + PrintedAttr(a), 0).Some? && Passed(front + PrintedAttr(a), 0).value < 8
  {
    var j, u := Passed(front, 0).value, a.name + Value(a.value);
    PassedJoin(front, " " + u, 0);
    assert (" " + u)[0] == ' ' && (" " + u)[1..] == u;
    assert Passed(" " + u, j) == Passed(u, 0);
    assert LITERAL[..0] + u == u;
    QuietPassed(u, 0);
  }

  lemma BaseAttr(front: string, v: string, more: string)
    ensures front + (PrintedAttr(Attr(LITERAL, v)) + more) == (front + " xml:base") + (Value(v) + more)
  {
    assert PrintedAttr(Attr(LITERAL, v)) == " xml:base" + Value(v);
  }

  /** The insertion sets the attribute in the printed tag, and changes nothing else. */
  lemma {:induction false} InsertedInTag(front: string, attrs: seq<Attr>, body: string, v: string)
    requires Passed(front, 0).Some? && Passed(front, 0).value < 8 && Readable(attrs)
    ensures Inserted(front + (Printed(attrs) + (">" + body)), v)
            == Some(front + (Printed(WithBase(attrs, v)) + (">" + body)))
    decreases |attrs|
  {
    var close := ">" + body;
    if attrs == [] {
      InsertedAtEnd(front, body, v);
    } else if attrs[0].name == LITERAL {
      var more := Printed(attrs[1..]) + close;
      AddedLiteralPassed(front);
      Rewrite(front + " xml:base", attrs[0].value, more, v);
      BaseAttr(front, attrs[0].value, more);
      BaseAttr(front, v, more);
      assert attrs[0] == Attr(LITERAL, attrs[0].value);
      assert WithBase(attrs, v)[1..] == attrs[1..];
      Assoc(PrintedAttr(attrs[0]), Printed(attrs[1..]), close);
      Assoc(PrintedAttr(Attr(LITERAL, v)), Printed(attrs[1..]), close);
    } else {
      var p := PrintedAttr(attrs[0]);
      AttrPassed(front, attrs[0]);
      InsertedInTag(front + p, attrs[1..], body, v);
      assert WithBase(attrs, v)[1..] == WithBase(attrs[1..], v);
      Nest(front, p, Printed(attrs[1..]), close);
      Nest(front, p, Printed(WithBase(attrs[1..], v)), close);
    }
  }

  lemma Nest(a: string, b: string, c: string, d: string)
    ensures a + ((b + c) + d) == (a + b) + (c + d)
  {
  }

  lemma OnlyBase(v: string)
    ensures Printed(WithBase([], v)) == Attribute(v)
  {
    var added := [Attr(LITERAL, v)];
    assert WithBase([], v) == added && added[1..] == [];
    assert Printed(added) == PrintedAttr(added[0]) + "";
  }

  lemma InsertedBefore(front: string, close: string, v: string)
    requires Passed(front, 0).Some? && close != "" && close[0] == '>'
    ensures Inserted(front + close, v) == Some(front + (Attribute(v) + close))
  {
    ScanPassed(front, close, 0);
    var t := front + close;
    assert t[..|front|] == front && t[|front|..] == close;
  }

  lemma InsertedAtEnd(front: string, body: string, v: string)
    requires Passed(front, 0).Some?
    ensures Inserted(front + ("" + (">" + body)), v)
            == Some(front + (Printed(WithBase([], v)) + (">" + body)))
  {
    var close := ">" + body;
    assert "" + close == close;
    OnlyBase(v);
    InsertedBefore(front, close, v);
  }

  // ---- Documents, read in two phases ----

  /** What is written for a document whose first `n` bytes are in the buffer. */
  function Document(doc: string, n: nat, v: string): Option<string>
    requires n <= |doc|
  {
    match Past(doc[..n], '>')
    case None => None
    case Some(p) =>
      match Inserted(doc[p..n], v)
      case None => None
      case Some(t) => Some(doc[..p] + (t + doc[n..]))
  }

  /** The scan stops in the buffer, and so does the value it replaces. */
  predicate FitsBuffer(doc: string, n: nat) {
    && n <= |doc| && Past(doc[..n], '>').Some?
    && !Scan(doc[Past(doc[..n], '>').value..n], 0).Nowhere?
    && Inserted(doc[Past(doc[..n], '>').value..n], "").Some?
  }

  lemma {:induction false} PastAt(t: string, c: char)
    ensures Past(t, c).Some? ==> t[Past(t, c).value - 1] == c && c !in t[..Past(t, c).value - 1]
    ensures Past(t, c).None? ==> c !in t
  {
    if t != "" && t[0] != c {
      PastAt(t[1..], c);
      if Past(t, c).Some? {
        var k := Past(t, c).value - 1;
        assert t[..k] == [t[0]] + t[1..][..k - 1];
      } else {
        assert t == [t[0]] + t[1..];
      }
    }
  }

  lemma QuotedEndPrefix(t: string, more: string)
    requires QuotedEnd(t).Some?
    ensures QuotedEnd(t + more) == QuotedEnd(t)
  {
    var a := Past(t, '"').value;
    PastPrefix(t, more, '"');
    assert (t + more)[a..] == t[a..] + more;
    PastPrefix(t[a..], more, '"');
  }

  lemma ValueEndPrefix(t: string, more: string)
    requires ValueEnd(t).Some?
    ensures ValueEnd(t + more) == ValueEnd(t)
  {
    var a := Past(t, '=').value;
    PastPrefix(t, more, '=');
    assert (t + more)[a..] == t[a..] + more;
    QuotedEndPrefix(t[a..], more);
  }

  lemma Grown(a: string, b: string, c: string, d: string)
    ensures (a + (b + c)) + d == a + (b + (c + d))
  {
  }

  lemma SliceBehind(t: string, more: string, k: nat)
    requires k <= |t|
    ensures (t + more)[..k] == t[..k] && (t + more)[k..] == t[k..] + more
  {
  }

  /** The insertion does not look behind its stop. */
  lemma InsertedPrefix(t: string, more: string, v: string)
    requires !Scan(t, 0).Nowhere? && Inserted(t, v).Some?
    ensures Inserted(t + more, v) == Some(Inserted(t, v).value + more)
  {
    ScanPrefix(t, more, 0);
    if Scan(t, 0).End? {
      EndPrefix(t, more, v, Scan(t, 0).at);
    } else {
      FoundPrefix(t, more, v, Scan(t, 0).at, ValueEnd(t[Scan(t, 0).at..]).value);
    }
  }

  lemma EndPrefix(t: string, more: string, v: string, k: nat)
    requires Scan(t, 0) == End(k) && Scan(t + more, 0) == End(k)
    ensures Inserted(t + more, v) == Some(Inserted(t, v).value + more)
  {
    SliceBehind(t, more, k);
    Grown(t[..k], Attribute(v), t[k..], more);
  }

  lemma FoundPrefix(t: string, more: string, v: string, k: nat, e: nat)
    requires Scan(t, 0) == Found(k) && Scan(t + more, 0) == Found(k) && ValueEnd(t[k..]) == Some(e)
    ensures Inserted(t + more, v) == Some(Inserted(t, v).value + more)
  {
    SliceBehind(t, more, k);
    ValueEndPrefix(t[k..], more);
    SliceBehind(t, more, k + e);
    Grown(t[..k], Value(v), t[k + e..], more);
  }

  /** A document whose Dataset tag fits the buffer is rewritten as if it had all been in the buffer. */
  lemma BufferIrrelevant(doc: string, n: nat, v: string)
    requires FitsBuffer(doc, n)
    ensures Document(doc, n, v).Some? && Document(doc, n, v) == Document(doc, |doc|, v) && FitsBuffer(doc, |doc|)
  {
    var p := Past(doc[..n], '>').value;
    var t, more := doc[p..n], doc[n..];
    assert doc[..|doc|] == doc == doc[..n] + more && doc[p..|doc|] == t + more;
    PastPrefix(doc[..n], more, '>');
    ScanPrefix(t, more, 0);
    assert Inserted(t, v).Some?;
    InsertedPrefix(t, more, v);
    InsertedPrefix(t, more, "");
    assert doc[|doc|..] == "";
    assert doc[..p] + (Inserted(t, v).value + more) == doc[..p] + ((Inserted(t, v).value + more) + "");
  }

  // ---- When the tag is lost ----

  /** The last `i` characters in front of `p` are a match that began there. */
  ghost predicate Matching(t: string, p: nat, i: nat)
    decreases p, 1
  {
    && 0 < i <= 8 && i <= p <= |t|
    && t[p - i..p] == LITERAL[..i] && Begins(t, p - i)
  }

  /** The scan begins to match at this 'x': no match that began earlier is still going on. A match
      that fails at an 'x' does not begin again there. */
  ghost predicate Begins(t: string, p: nat)
    decreases p, 2
  {
    p < |t| && t[p] == 'x' && forall i :: 0 < i < 8 && i <= p ==> !Matching(t, p, i)
  }

  /** The state of the scan in front of `p` is the length of the match that is going on, if any. */
  ghost predicate StateIs(t: string, p: nat, j: nat) {
    && (j > 0 ==> Matching(t, p, j))
    && forall i :: 0 < i <= 8 && i != j ==> !Matching(t, p, i)
  }

  lemma MatchingStep(t: string, p: nat, i: nat)
    requires p < |t| && 0 < i <= 8
    ensures Matching(t, p + 1, i) <==>
            if i == 1 then Begins(t, p) else Matching(t, p, i - 1) && t[p] == LITERAL[i - 1]
  {
    if i == 1 {
      assert t[p..p + 1] == [t[p]] && LITERAL[..1] == ['x'];
    } else if i <= p + 1 {
      assert t[p + 1 - i..p + 1] == t[p + 1 - i..p] + [t[p]];
      assert LITERAL[..i] == LITERAL[..i - 1] + [LITERAL[i - 1]];
      SnocEqual(t[p + 1 - i..p], t[p], LITERAL[..i - 1], LITERAL[i - 1]);
    }
  }

  lemma SnocEqual(a: string, x: char, b: string, y: char)
    ensures a + [x] == b + [y] <==> a == b && x == y
  {
    if a + [x] == b + [y] {
      assert a == (a + [x])[..|a|] && b == (b + [y])[..|b|];
      assert (a + [x])[|a|] == x && (b + [y])[|b|] == y;
    }
  }

  lemma StateStep(t: string, p: nat, j: nat)
    requires p < |t| && j < 8 && StateIs(t, p, j)
    ensures StateIs(t, p + 1, Next(j, t[p]))
  {
    var q := p + 1;
    forall i | 0 < i <= 8
      ensures Matching(t, q, i) <==> i == Next(j, t[p])
    {
      MatchingStep(t, p, i);
    }
  }

  lemma {:induction false} PassedState(t: string, p: nat)
    requires p <= |t| && Passed(t[..p], 0).Some?
    ensures StateIs(t, p, Passed(t[..p], 0).value)
  {
    if p > 0 {
      assert t[..p] == t[..p - 1] + [t[p - 1]];
      PassedFront(t[..p - 1], [t[p - 1]], 0);
      PassedState(t, p - 1);
      StateStep(t, p - 1, Passed(t[..p - 1], 0).value);
    }
  }

  /** What is passed as a whole is passed in front. */
  lemma {:induction false} PassedFront(u: string, w: string, j: nat)
    requires j <= 8 && Passed(u + w, j).Some?
    ensures Passed(u, j).Some? && Passed(w, Passed(u, j).value) == Passed(u + w, j)
  {
    if u == "" {
      assert u + w == w;
    } else {
      assert (u + w)[1..] == u[1..] + w;
      PassedFront(u[1..], w, Next(j, u[0]));
    }
  }

  lemma {:induction false} NowhereMeansPassed(t: string, j: nat)
    requires j <= 8
    ensures Scan(t, j).Nowhere? <==> Passed(t, j).Some?
  {
    if t != "" && t[0] != '>' && j < 8 {
      NowhereMeansPassed(t[1..], Next(j, t[0]));
    }
  }

  /** An occurrence of the literal that the scan sees: a match begins there, and a character follows. */
  ghost predicate Seen(t: string, p: nat) {
    OccursAt(t, LITERAL, p) && Begins(t, p) && p + 8 < |t|
  }

  /** A scan that goes on behind position `k` found neither a '>' there nor the literal in front. */
  lemma GoesOnBehind(t: string, k: nat)
    requires k < |t| && Passed(t, 0).Some?
    ensures t[k] != '>' && !Matching(t, k, 8)
  {
    assert t == t[..k] + t[k..];
    PassedFront(t[..k], t[k..], 0);
    PassedState(t, k);
    assert Passed(t[..k], 0).value != 8;
  }

  lemma SeenMatches(t: string, p: nat)
    ensures Seen(t, p) ==> p + 8 < |t| && Matching(t, p + 8, 8)
  {
    assert LITERAL[..8] == LITERAL;
  }

  lemma PassedSeesNothing(t: string)
    requires Passed(t, 0).Some?
    ensures '>' !in t && forall p: nat :: !Seen(t, p)
  {
    forall k: nat | k < |t|
      ensures t[k] != '>'
    {
      GoesOnBehind(t, k);
    }
    forall p: nat
      ensures !Seen(t, p)
    {
      SeenMatches(t, p);
      if p + 8 < |t| {
        GoesOnBehind(t, p + 8);
      }
    }
  }

  /** The scan of a tag stops nowhere exactly when the tag has no '>' and each occurrence of the literal
      is either the last thing in it or hidden by a match that was going on where it starts. */
  lemma NowhereIff(t: string)
    ensures Scan(t, 0).Nowhere? <==> '>' !in t && forall p: nat :: !Seen(t, p)
  {
    NowhereMeansPassed(t, 0);
    if Scan(t, 0).Nowhere? {
      PassedSeesNothing(t);
    } else {
      var k := Scan(t, 0).at;
      PassedToStop(t, 0);
      PassedState(t, k);
      if Scan(t, 0).Found? {
        assert Matching(t, k, 8);
        assert Seen(t, k - 8);
      }
    }
  }

  lemma SomethingInserted(t: string, v: string)
    requires Inserted(t, v).Some? && !Scan(t, 0).Nowhere?
    ensures |Inserted(t, v).value| > 0
  {
  }

  /** The part of the buffer behind the prolog is lost exactly when it has no '>' and no occurrence of
      the literal that the scan sees. */
  lemma TagLostIff(doc: string, n: nat, v: string)
    requires n <= |doc| && Past(doc[..n], '>').Some? && Document(doc, n, v).Some?
    ensures var p := Past(doc[..n], '>').value;
            Document(doc, n, v) == Some(doc[..p] + doc[n..])
            <==> '>' !in doc[p..n] && forall k: nat :: !Seen(doc[p..n], k)
  {
    var p := Past(doc[..n], '>').value;
    var t := doc[p..n];
    NowhereIff(t);
    if Scan(t, 0).Nowhere? {
      assert "" + doc[n..] == doc[n..];
    } else {
      SomethingInserted(t, v);
      assert |Document(doc, n, v).value| > |doc[..p] + doc[n..]|;
    }
  }

  /** A literal behind a blank, as attributes have it, is seen. */
  lemma BlankShowsLiteral(t: string, p: nat)
    requires OccursAt(t, LITERAL, p) && p + 8 < |t| && (p == 0 || t[p - 1] == ' ')
    ensures Seen(t, p)
  {
    assert t[p..p + 8][0] == t[p];
    forall i | 0 < i < 8 && i <= p
      ensures !Matching(t, p, i)
    {
      assert t[p - i..p][i - 1] == ' ' && LITERAL[..i][i - 1] == LITERAL[i - 1] != ' ';
    }
  }

  /** A literal behind a lone 'x' is hidden. */
  lemma MatchHidesLiteral(t: string)
    requires LITERAL <= t
    ensures OccursAt("x" + t, LITERAL, 1) && !Seen("x" + t, 1)
  {
    var u := "x" + t;
    assert u[1..9] == t[..8] == LITERAL;
    assert u[0..1] == LITERAL[..1] && u[0] == 'x';
    assert Matching(u, 1, 1);
  }

  /** The Dataset tag ends right behind the literal. */
  predicate TagEndsBare(doc: string) {
    Past(doc, '>').Some? && EndsBare(doc[Past(doc, '>').value..])
  }

  /** Rewriting twice is rewriting with the second value, whatever part of either document the buffer
      held. */
  lemma DocumentLastWins(doc: string, n1: nat, v1: string, n2: nat, v2: string)
    requires FitsBuffer(doc, n1) && Document(doc, n1, v1).Some?
    requires FitsBuffer(Document(doc, n1, v1).value, n2)
    requires '"' !in v1 && !TagEndsBare(doc)
    ensures Document(Document(doc, n1, v1).value, n2, v2) == Document(doc, n1, v2)
  {
    BufferIrrelevant(doc, n1, v1);
    BufferIrrelevant(doc, n1, v2);
    var doc1 := Document(doc, n1, v1).value;
    BufferIrrelevant(doc1, n2, v2);
    WholeDocument(doc, v1);
    WholeDocument(doc, v2);
    WholeDocument(doc1, v2);
    assert doc[..|doc|] == doc;
    WholeLastWins(doc, v1, v2);
  }

  /** What is written when the whole document is in the buffer. */
  function Whole(doc: string, v: string): Option<string> {
    match Past(doc, '>')
    case None => None
    case Some(p) => match Inserted(doc[p..], v) case None => None case Some(t) => Some(doc[..p] + t)
  }

  lemma WholeLastWins(doc: string, v1: string, v2: string)
    requires Whole(doc, v1).Some? && !Scan(doc[Past(doc, '>').value..], 0).Nowhere?
    requires '"' !in v1 && !TagEndsBare(doc)
    ensures Whole(Whole(doc, v1).value, v2) == Whole(doc, v2)
  {
    var p := Past(doc, '>').value;
    var t := doc[p..];
    LastWinsIff(t, v1, v2);
    PastTake(doc, '>');
    WholeOf(doc[..p], Inserted(t, v1).value, v2);
  }

  lemma WholeOf(prolog: string, t: string, v: string)
    requires Past(prolog, '>') == Some(|prolog|)
    ensures Whole(prolog + t, v) == match Inserted(t, v) case None => None case Some(u) => Some(prolog + u)
  {
    PastPrefix(prolog, t, '>');
    assert (prolog + t)[..|prolog|] == prolog && (prolog + t)[|prolog|..] == t;
  }

  lemma PastTake(t: string, c: char)
    requires Past(t, c).Some?
    ensures Past(t[..Past(t, c).value], c) == Past(t, c)
  {
    var k := Past(t, c).value;
    PastAt(t, c);
    assert t[..k] == t[..k - 1] + ([c] + "");
    PastClean(t[..k - 1], c, "");
  }

  lemma WholeDocument(doc: string, v: string)
    ensures Document(doc, |doc|, v) == Whole(doc, v)
  {
    assert doc[..|doc|] == doc && doc[|doc|..] == "";
    if Past(doc, '>').Some? {
      var p := Past(doc, '>').value;
      assert doc[p..|doc|] == doc[p..];
      if Inserted(doc[p..], v).Some? {
        assert Inserted(doc[p..], v).value + "" == Inserted(doc[p..], v).value;
      }
    }
  }

  /** A document with a prolog, a Dataset tag and a body gets the attribute set, and nothing else changed. */
  lemma DocumentSetsAttribute(prolog: string, open: string, attrs: seq<Attr>, body: string, n: nat, v: string)
    requires '>' !in prolog && Quiet(open) && Readable(attrs)
    requires var doc := (prolog + ">") + (open + (Printed(attrs) + (">" + body))); FitsBuffer(doc, n)
    ensures var doc := (prolog + ">") + (open + (Printed(attrs) + (">" + body)));
            Document(doc, n, v) == Some((prolog + ">") + (open + (Printed(WithBase(attrs, v)) + (">" + body))))
  {
    var t := open + (Printed(attrs) + (">" + body));
    var doc := (prolog + ">") + t;
    BufferIrrelevant(doc, n, v);
    WholeDocument(doc, v);
    assert prolog + ">" == prolog + (['>'] + "");
    PastClean(prolog, '>', "");
    WholeOf(prolog + ">", t, v);
    assert LITERAL[..0] + open == open;
    QuietPassed(open, 0);
    InsertedInTag(open, attrs, body, v);
  }

  // ---- The program ----

  const BUFFER_SIZE := 1024
  const TRANSFER_SIZE := 16384

  /** An open file, read from its start. */
  class File {
    var rest: string

    constructor (contents: string)
      ensures rest == contents
    {
      rest := contents;
    }

    /** `read`: -1 is an error, which may come at any time; 0 is the end of the file. It may give less
        than was asked for. */
    method Read(max: nat) returns (n: int, data: string)
      requires max > 0
      modifies this
      ensures n == -1 || n == |data| <= max
      ensures n == -1 ==> rest == old(rest)
      ensures n != -1 ==> data + rest == old(rest) && (n == 0 <==> old(rest) == "")
    {
      if * {
        return -1, "";
      }
      if rest == "" {
        return 0, "";
      }
      n :| 1 <= n <= max && n <= |rest|;
      data, rest := rest[..n], rest[n..];
    }
  }

  /** `transfer_bytes`: appends the rest of the file; false stands for the exception. */
  method TransferBytes(fd: File, os: string) returns (ok: bool, out: string)
    modifies fd
    ensures ok ==> out == os + old(fd.rest) && fd.rest == ""
  {
    out := os;
    while true
      invariant out + fd.rest == os + old(fd.rest)
      decreases |fd.rest|
    {
      ghost var before, left := out, fd.rest;
      var n, data := fd.Read(TRANSFER_SIZE);
      if n == -1 {
        return false, out;
      }
      if n == 0 {
        assert data == "" && left == "";
        assert before + "" == before;
        return true, out;
      }
      Assoc(out, data, fd.rest);
      out := out + data;
    }
  }

  /** `while (buf[i++] != c);`, or None when it would run out of the buffer. */
  method SkipPast(buf: string, start: nat, c: char) returns (r: Option<nat>)
    requires start <= |buf|
    ensures r == Shifted(Past(buf[start..], c), start)
  {
    var i := start;
    while i < |buf| && buf[i] != c
      invariant start <= i <= |buf|
      invariant Shifted(Past(buf[start..], c), start) == Shifted(Past(buf[i..], c), i)
    {
      assert buf[i..][1..] == buf[i + 1..];
      i := i + 1;
    }
    if i == |buf| {
      return None;
    }
    return Some(i + 1);
  }

  /** The scan from `start` goes on at `i` in state `j`. */
  ghost predicate Scanned(buf: string, start: nat, i: nat, j: nat) {
    start <= i <= |buf| && j <= 8 && Scan(buf[start..], 0) == Moved(Scan(buf[i..], j), i - start)
  }

  lemma ScannedStarts(buf: string, start: nat)
    requires start <= |buf|
    ensures Scanned(buf, start, start, 0)
  {
  }

  lemma ScannedStep(buf: string, start: nat, i: nat, j: nat)
    requires Scanned(buf, start, i, j) && i < |buf| && j < 8 && buf[i] != '>'
    ensures Scanned(buf, start, i + 1, Next(j, buf[i]))
  {
    assert buf[i..][1..] == buf[i + 1..];
  }

  lemma ScannedStops(buf: string, start: nat, i: nat, j: nat)
    requires Scanned(buf, start, i, j)
    requires i < |buf| ==> buf[i] == '>' || j == 8
    ensures Scan(buf[start..], 0) ==
            if i == |buf| then Nowhere else if buf[i] == '>' then End(i - start) else Found(i - start)
  {
  }

  /** The scanning loop: where it stops, and whether it does so behind the literal. */
  method FindPlace(buf: string, start: nat) returns (i: nat, found: bool)
    requires start <= |buf|
    ensures start <= i <= |buf|
    ensures Scan(buf[start..], 0) ==
            if i == |buf| then Nowhere else if found then Found(i - start) else End(i - start)
  {
    i := start;
    var j := 0;
    var literal := LITERAL;
    ScannedStarts(buf, start);
    while i < |buf|
      invariant Scanned(buf, start, i, j)
    {
      if buf[i] == '>' {
        ScannedStops(buf, start, i, j);
        return i, false;
      } else if j == |literal| {
        ScannedStops(buf, start, i, j);
        return i, true;
      }
      ScannedStep(buf, start, i, j);
      if buf[i] == literal[j] {
        j := j + 1;
      } else {
        j := 0;
      }
      i := i + 1;
    }
    ScannedStops(buf, start, i, j);
    found := false;
  }

  lemma BehindBehind(buf: string, s: nat, i: nat)
    requires s <= i <= |buf|
    ensures buf[s..][..i - s] == buf[s..i] && buf[s..][i - s..] == buf[i..]
  {
  }

  lemma AddedAt(buf: string, s: nat, i: nat, v: string)
    requires s <= i < |buf|
    ensures InsertedAt(buf[s..], End(i - s), v) == Some(buf[s..i] + (Attribute(v) + buf[i..]))
  {
    BehindBehind(buf, s, i);
  }

  lemma ReplacedAt(buf: string, s: nat, i: nat, e: nat, v: string)
    requires s <= i && i + e <= |buf|
    ensures Replaced(buf[s..], i - s, Some(e), v) == Some(buf[s..i] + (Value(v) + buf[i + e..]))
  {
    BehindBehind(buf, s, i);
    BehindBehind(buf, s, i + e);
  }

  /** What is written for the buffer: the prolog, and the tag with the new value. */
  method RewriteBuffer(buf: string, xmlBase: string) returns (os: Option<string>)
    ensures os == Whole(buf, xmlBase)
  {
    assert buf[0..] == buf;
    var prolog := SkipPast(buf, 0, '>');
    if prolog.None? {
      return None;
    }
    var tag := RewriteTag(buf, prolog.value, xmlBase);
    if tag.None? {
      return None;
    }
    return Some(buf[..prolog.value] + tag.value);
  }

  /** What is written for the part of the buffer from `s` on. */
  method RewriteTag(buf: string, s: nat, xmlBase: string) returns (os: Option<string>)
    requires s <= |buf|
    ensures os == Inserted(buf[s..], xmlBase)
  {
    var i, found := FindPlace(buf, s);
    if i == |buf| {
      return Some("");
    }
    if !found {
      AddedAt(buf, s, i, xmlBase);
      return Some(buf[s..i] + (Attribute(xmlBase) + buf[i..]));
    }
    os := ReplaceValue(buf, s, i, xmlBase);
  }

  method ReplaceValue(buf: string, s: nat, i: nat, xmlBase: string) returns (os: Option<string>)
    requires s <= i <= |buf|
    ensures os == Replaced(buf[s..], i - s, ValueEnd(buf[s..][i - s..]), xmlBase)
  {
    var e := SkipValue(buf, i);
    BehindBehind(buf, s, i);
    if e.None? {
      return None;
    }
    ReplacedAt(buf, s, i, e.value - i, xmlBase);
    return Some(buf[s..i] + (Value(xmlBase) + buf[e.value..]));
  }

  /** Skips '=' and a quoted value. */
  method SkipValue(buf: string, start: nat) returns (r: Option<nat>)
    requires start <= |buf|
    ensures r == Shifted(ValueEnd(buf[start..]), start)
  {
    var a := SkipPast(buf, start, '=');
    if a.None? {
      return None;
    }
    BehindBehind(buf, start, a.value);
    r := SkipQuoted(buf, a.value);
  }

  method SkipQuoted(buf: string, start: nat) returns (r: Option<nat>)
    requires start <= |buf|
    ensures r == Shifted(QuotedEnd(buf[start..]), start)
  {
    var a := SkipPast(buf, start, '"');
    if a.None? {
      return None;
    }
    BehindBehind(buf, start, a.value);
    r := SkipPast(buf, a.value, '"');
  }

  /** How `insert_xml_base` ends: with what it has written, with the exception for a failed read, or in
      a skipping loop that runs out of the buffer. */
  datatype Outcome = Written(os: string) | ReadFailed | Overrun

  /** `insert_xml_base`: rewrites the part of the document in the buffer, which the first read decides,
      and transfers the rest. */
  method InsertXmlBase(fd: File, xmlBase: string) returns (r: Outcome, ghost inBuffer: nat)
    modifies fd
    ensures inBuffer <= BUFFER_SIZE && inBuffer <= |old(fd.rest)|
    ensures r.Written? ==>
              Some(r.os) == if old(fd.rest) == "" then Some("") else Document(old(fd.rest), inBuffer, xmlBase)
    ensures r.Overrun? ==> old(fd.rest) != "" && Document(old(fd.rest), inBuffer, xmlBase).None?
  {
    ghost var doc := fd.rest;
    var n, buf := fd.Read(BUFFER_SIZE);
    inBuffer := |buf|;
    if n == -1 {
      inBuffer := 0;
      return ReadFailed, inBuffer;
    }
    if n == 0 {
      return Written(""), inBuffer;
    }
    DocumentInBuffer(doc, buf, fd.rest, xmlBase);
    var front := RewriteBuffer(buf, xmlBase);
    if front.None? {
      return Overrun, inBuffer;
    }
    var ok, os := TransferBytes(fd, front.value);
    r := if ok then Written(os) else ReadFailed;
  }

  lemma DocumentInBuffer(doc: string, buf: string, rest: string, v: string)
    requires doc == buf + rest
    ensures Document(doc, |buf|, v) == match Whole(buf, v) case None => None case Some(u) => Some(u + rest)
  {
    assert doc[..|buf|] == buf && doc[|buf|..] == rest;
    if Past(buf, '>').Some? {
      var p := Past(buf, '>').value;
      assert doc[p..|buf|] == buf[p..] && doc[..p] == buf[..p];
      if Inserted(buf[p..], v).Some? {
        Assoc(buf[..p], Inserted(buf[p..], v).value, rest);
      }
    }
  }

  // ---- A literal that is missed ----

  lemma LiteralStarts(t: string, k: nat)
    requires OccursAt(t, LITERAL, k)
    ensures t[k] == 'x' && t[k + 1] == 'm'
  {
    assert t[k..k + 8][0] == t[k] && t[k..k + 8][1] == t[k + 1];
  }

  lemma HiddenInTag()
    ensures Scan("xxml:base=a", 0).Nowhere?
  {
    var t := "xxml:base=a";
    MatchHidesLiteral("xml:base=a");
    assert "x" + "xml:base=a" == t;
    forall k: nat
      ensures !Seen(t, k)
    {
      if OccursAt(t, LITERAL, k) {
        OnlyAtOne(k);
      }
    }
    NowhereIff(t);
  }

  lemma OnlyAtOne(k: nat)
    requires OccursAt("xxml:base=a", LITERAL, k)
    ensures k == 1
  {
    LiteralStarts("xxml:base=a", k);
  }

  /** A document whose tag is lost although the buffer holds its xml:base. */
  lemma HiddenLiteralLosesTag(prolog: string, rest: string, v: string)
    requires '>' !in prolog
    ensures var buf := (prolog + ">") + "xxml:base=a";
            Document(buf + rest, |buf|, v) == Some((prolog + ">") + rest)
  {
    var front, t := prolog + ">", "xxml:base=a";
    HiddenInTag();
    assert front == prolog + (['>'] + "");
    PastClean(prolog, '>', "");
    WholeOf(front, t, v);
    assert front + "" == front;
    DocumentInBuffer(front + t + rest, front + t, rest, v);
  }
}
