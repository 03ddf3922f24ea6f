/** `BESUtil::id2xml` and `BESUtil::xml2id`, and the exact texts on which the second inverts the first. */
module XmlEscape {
  import opened Text

  const SPECIAL: set<char> := {'>', '<', '&', '\'', '"'}

  /** `entity`. */
  function Entity(c: char): (r: string)
    ensures r != ""
  {
    if c == '>' then "&gt;"
    else if c == '<' then "&lt;"
    else if c == '&' then "&amp;"
    else if c == '\'' then "&apos;"
    else if c == '"' then "&quot;"
    else [c]
  }

  /** The text with every character of `k` replaced by its entity. */
  function Escaped(s: string, k: set<char>): string {
    if s == "" then "" else (if s[0] in k then Entity(s[0]) else [s[0]]) + Escaped(s[1..], k)
  }

  /** One pass of `xml2id`: replaces an entity by its character, and looks again at the same place. */
  function Pass(t: string, c: char): string
    requires c in SPECIAL
    decreases |t|
  {
    if t == "" then ""
    else if Entity(c) <= t then Pass([c] + t[|Entity(c)|..], c)
    else [t[0]] + Pass(t[1..], c)
  }

  function Unescaped(t: string): string {
    Pass(Pass(Pass(Pass(Pass(t, '>'), '<'), '&'), '\''), '"')
  }

  // ---- One entity against another ----

  /** An entity is '&' and characters that are not special. */
  lemma EntityShape(c: char)
    requires c in SPECIAL
    ensures |Entity(c)| >= 4 && Entity(c)[0] == '&'
    ensures forall i :: 1 <= i < |Entity(c)| ==> Entity(c)[i] !in SPECIAL
  {
  }

  lemma EntitiesDiffer(c: char, x: char, rest: string)
    requires c in SPECIAL && x in SPECIAL && c != x
    ensures !(Entity(c) <= Entity(x) + rest)
  {
    var e, t := Entity(c), Entity(x) + rest;
    assert t[1] == Entity(x)[1] && t[2] == Entity(x)[2];
  }

  lemma PassFirst(t: string, c: char)
    requires c in SPECIAL && t != "" && !(Entity(c) <= t)
    ensures Pass(t, c) == [t[0]] + Pass(t[1..], c)
  {
  }

  lemma NoEntity(t: string, c: char)
    requires c in SPECIAL && t != "" && t[0] != '&'
    ensures !(Entity(c) <= t)
  {
    EntityShape(c);
  }

  lemma Prepend(w: string, rest: string)
    requires w != ""
    ensures (w + rest)[0] == w[0] && (w + rest)[1..] == w[1..] + rest && w + rest == [w[0]] + (w[1..] + rest)
  {
  }

  lemma {:induction false} PassSkips(w: string, rest: string, c: char)
    requires c in SPECIAL && '&' !in w
    ensures Pass(w + rest, c) == w + Pass(rest, c)
  {
    if w == "" {
      assert w + rest == rest;
    } else {
      PassSkips(w[1..], rest, c);
      Prepend(w, rest);
      Prepend(w, Pass(rest, c));
      NoEntity(w + rest, c);
      PassFirst(w + rest, c);
    }
  }

  /** The pass for one character leaves the entities of the others. */
  lemma PassEntity(x: char, rest: string, c: char)
    requires c in SPECIAL && x in SPECIAL && c != x
    ensures Pass(Entity(x) + rest, c) == Entity(x) + Pass(rest, c)
  {
    var e := Entity(x);
    EntityShape(x);
    EntitiesDiffer(c, x, rest);
    assert (e + rest)[1..] == e[1..] + rest;
    PassSkips(e[1..], rest, c);
  }

  /** A character other than '&' starts no entity. */
  lemma PassOne(x: char, rest: string, c: char)
    requires c in SPECIAL && x != '&'
    ensures Pass([x] + rest, c) == [x] + Pass(rest, c)
  {
    PassSkips([x], rest, c);
  }

  /** An entity in front. */
  lemma PassMatch(rest: string, c: char)
    requires c in SPECIAL
    ensures Pass(Entity(c) + rest, c) == Pass([c] + rest, c)
  {
    assert (Entity(c) + rest)[|Entity(c)|..] == rest;
  }

  lemma EscapedStep(x: char, s: string, k: set<char>)
    ensures Escaped([x] + s, k) == (if x in k then Entity(x) else [x]) + Escaped(s, k)
  {
    assert ([x] + s)[1..] == s;
  }

  /** Plain words stay where they are. */
  lemma {:induction false} EscapedStarts(s: string, k: set<char>, w: string)
    requires k <= SPECIAL && forall i :: 0 <= i < |w| ==> w[i] !in SPECIAL
    ensures w <= Escaped(s, k) <==> w <= s
    ensures w <= s ==> Escaped(s, k)[|w|..] == Escaped(s[|w|..], k)
  {
    if w != "" && s != "" {
      EscapedStarts(s[1..], k, w[1..]);
      var t := Escaped(s, k);
      if s[0] in k {
        EntityShape(s[0]);
        assert t[0] == '&';
      } else {
        assert t[0] == s[0] && t[1..] == Escaped(s[1..], k);
      }
      PrefixStep(w, t);
      PrefixStep(w, s);
      if w <= s {
        assert s[1..][|w| - 1..] == s[|w|..] && t[1..][|w| - 1..] == t[|w|..];
      }
    }
  }

  lemma PrefixStep(w: string, t: string)
    requires w != ""
    ensures w <= t <==> t != "" && t[0] == w[0] && w[1..] <= t[1..]
  {
    if t != "" && t[0] == w[0] && w[1..] <= t[1..] {
      assert forall i :: 0 < i < |w| ==> w[i] == w[1..][i - 1] == t[1..][i - 1] == t[i];
    }
  }

  /** The name of an entity, with its semicolon. */
  function Name(c: char): string
    requires c in SPECIAL
  {
    Entity(c)[1..]
  }

  /** After a bare '&' there is a match exactly when the rest starts with the name. */
  lemma PassAmpersand(rest: string, c: char)
    requires c in SPECIAL
    ensures Pass(['&'] + rest, c) ==
            if Name(c) <= rest then Pass([c] + rest[|Name(c)|..], c) else ['&'] + Pass(rest, c)
  {
    var t := ['&'] + rest;
    EntityShape(c);
    PrefixStep(Entity(c), t);
    assert t[1..] == rest;
    if Name(c) <= rest {
      assert t[|Entity(c)|..] == rest[|Name(c)|..];
    }
  }

  // ---- A pass over an escaped text ----

  /** While '&' is escaped, the pass for another character just undoes its escaping. */
  lemma {:induction false} PassEarly(s: string, k: set<char>, c: char)
    requires k <= SPECIAL && c in k && '&' in k && c != '&'
    ensures Pass(Escaped(s, k), c) == Escaped(s, k - {c})
  {
    if s != "" {
      var x, rest := s[0], Escaped(s[1..], k);
      PassEarly(s[1..], k, c);
      if x == c {
        PassMatch(rest, c);
        PassOne(c, rest, c);
      } else if x in k {
        PassEntity(x, rest, c);
      } else {
        PassOne(x, rest, c);
      }
    }
  }

  /** The name of an entity in front of an escaped text was there before. */
  lemma NameStarts(s: string, k: set<char>, c: char)
    requires k <= SPECIAL && c in SPECIAL
    ensures Name(c) <= Escaped(s, k) <==> Name(c) <= s
    ensures Name(c) <= s ==> Escaped(s, k)[|Name(c)|..] == Escaped(s[|Name(c)|..], k)
  {
    EntityShape(c);
    EscapedStarts(s, k, Name(c));
  }

  /** Once '&' is back, a pass does to the text what it would have done before the escaping. */
  lemma {:induction false} PassLate(s: string, k: set<char>, c: char)
    requires k <= SPECIAL && c in k && '&' !in k
    ensures Pass(Escaped(s, k), c) == Escaped(Pass(s, c), k - {c})
    decreases |s|, 0
  {
    if s != "" {
      var x, t := s[0], s[1..];
      assert s == [x] + t;
      if x == '&' {
        LateAmpersand(t, k, c);
      } else {
        PassLate(t, k, c);
        PassOne(x, t, c);
        EscapedStep(x, Pass(t, c), k - {c});
        if x == c {
          PassMatch(Escaped(t, k), c);
          PassOne(c, Escaped(t, k), c);
        } else if x in k {
          PassEntity(x, Escaped(t, k), c);
        } else {
          PassOne(x, Escaped(t, k), c);
        }
      }
    }
  }

  lemma {:induction false} LateAmpersand(t: string, k: set<char>, c: char)
    requires k <= SPECIAL && c in k && '&' !in k
    ensures Pass(Escaped(['&'] + t, k), c) == Escaped(Pass(['&'] + t, c), k - {c})
    decreases |t|, 1
  {
    EscapedStep('&', t, k);
    PassAmpersand(t, c);
    PassAmpersand(Escaped(t, k), c);
    NameStarts(t, k, c);
    if Name(c) <= t {
      var u := t[|Name(c)|..];
      PassLate(u, k, c);
      PassOne(c, u, c);
      PassOne(c, Escaped(u, k), c);
      EscapedStep(c, Pass(u, c), k - {c});
    } else {
      PassLate(t, k, c);
      EscapedStep('&', Pass(t, c), k - {c});
    }
  }

  /** The pass that brings '&' back looks again at the '&' it has just written, and so does to the text
      what it would have done before the escaping. */
  lemma {:induction false} PassAmp(s: string, k: set<char>)
    requires k <= SPECIAL && '&' in k
    ensures Pass(Escaped(s, k), '&') == Escaped(Pass(s, '&'), k - {'&'})
    decreases |s|, 0
  {
    if s != "" {
      var x, t := s[0], s[1..];
      assert s == [x] + t;
      if x == '&' {
        AmpAmpersand(t, k);
      } else {
        PassAmp(t, k);
        PassOne(x, t, '&');
        EscapedStep(x, Pass(t, '&'), k - {'&'});
        if x in k {
          PassEntity(x, Escaped(t, k), '&');
        } else {
          PassOne(x, Escaped(t, k), '&');
        }
      }
    }
  }

  lemma {:induction false} AmpAmpersand(t: string, k: set<char>)
    requires k <= SPECIAL && '&' in k
    ensures Pass(Escaped(['&'] + t, k), '&') == Escaped(Pass(['&'] + t, '&'), k - {'&'})
    decreases |t|, 1
  {
    var e := Escaped(t, k);
    EscapedStep('&', t, k);
    PassMatch(e, '&');
    PassAmpersand(t, '&');
    PassAmpersand(e, '&');
    NameStarts(t, k, '&');
    if Name('&') <= t {
      var u := t[|Name('&')|..];
      AmpAmpersand(u, k);
      EscapedStep('&', u, k);
      PassMatch(Escaped(u, k), '&');
    } else {
      PassAmp(t, k);
      EscapedStep('&', Pass(t, '&'), k - {'&'});
    }
  }

  // ---- The exact domain of the round trip ----

  /** A pass changes exactly the texts with the entity in them, and makes them shorter. */
  lemma {:induction false} PassShortens(t: string, c: char)
    requires c in SPECIAL
    ensures |Pass(t, c)| <= |t|
    ensures Contains(t, Entity(c)) ==> |Pass(t, c)| < |t|
    ensures !Contains(t, Entity(c)) ==> Pass(t, c) == t
    decreases |t|
  {
    EntityShape(c);
    if t != "" {
      if Entity(c) <= t {
        PassShortens([c] + t[|Entity(c)|..], c);
      } else {
        PassShortens(t[1..], c);
        assert t == [t[0]] + t[1..];
      }
    }
  }

  lemma {:induction false} NothingEscaped(s: string)
    ensures Escaped(s, {}) == s
  {
    if s != "" {
      NothingEscaped(s[1..]);
      assert s == [s[0]] + s[1..];
    }
  }

  lemma FirstTwoPasses(s: string)
    ensures Pass(Pass(Escaped(s, SPECIAL), '>'), '<') == Escaped(s, {'&', '\'', '"'})
  {
    PassEarly(s, SPECIAL, '>');
    PassEarly(s, SPECIAL - {'>'}, '<');
    assert SPECIAL - {'>'} - {'<'} == {'&', '\'', '"'};
  }

  lemma LastTwoPasses(t: string)
    ensures Pass(Pass(Escaped(t, {'\'', '"'}), '\''), '"') == Pass(Pass(t, '\''), '"')
  {
    var u := Pass(t, '\'');
    PassLate(t, {'\'', '"'}, '\'');
    assert {'\'', '"'} - {'\''} == {'"'};
    PassLate(u, {'"'}, '"');
    assert {'"'} - {'"'} == {};
    NothingEscaped(Pass(u, '"'));
  }

  /** Unescaping an escaped text is the last three passes over the text itself. */
  lemma UnescapedEscaped(s: string)
    ensures Unescaped(Escaped(s, SPECIAL)) == Pass(Pass(Pass(s, '&'), '\''), '"')
  {
    FirstTwoPasses(s);
    PassAmp(s, {'&', '\'', '"'});
    assert {'&', '\'', '"'} - {'&'} == {'\'', '"'};
    LastTwoPasses(Pass(s, '&'));
  }

  /** The round trip gives the text back if and only if it contains none of these three entities. */
  lemma RoundTripIff(s: string)
    ensures Unescaped(Escaped(s, SPECIAL)) == s
            <==> !Contains(s, "&amp;") && !Contains(s, "&apos;") && !Contains(s, "&quot;")
  {
    UnescapedEscaped(s);
    PassShortens(s, '&');
    PassShortens(Pass(s, '&'), '\'');
    PassShortens(Pass(Pass(s, '&'), '\''), '"');
  }

  // ---- The programs ----

  /** `find_first_of`: how far the next character of `k` is, or the length of the text. */
  function NextOf(t: string, k: set<char>): (r: nat)
    ensures r <= |t| && (r < |t| ==> t[r] in k)
  {
    if t == "" || t[0] in k then 0 else 1 + NextOf(t[1..], k)
  }

  /** The characters that `entity` leaves alone come out unchanged, allowed or not. */
  lemma {:induction false} EscapedPlain(w: string, rest: string, k: set<char>)
    requires forall i :: 0 <= i < |w| ==> w[i] !in k || w[i] !in SPECIAL
    ensures Escaped(w + rest, k) == w + Escaped(rest, k)
  {
    if w == "" {
      assert w + rest == rest;
    } else {
      EscapedPlain(w[1..], rest, k);
      assert (w + rest)[1..] == w[1..] + rest;
    }
  }

  lemma {:induction false} EscapedUpTo(t: string, k: set<char>)
    ensures Escaped(t, k) == t[..NextOf(t, k)] + Escaped(t[NextOf(t, k)..], k)
  {
    if t != "" && t[0] !in k {
      EscapedUpTo(t[1..], k);
      var n := NextOf(t[1..], k);
      assert t[..n + 1] == [t[0]] + t[1..][..n] && t[n + 1..] == t[1..][n..];
    }
  }

  /** How many characters are still to be replaced by something longer. */
  function Replaceable(t: string, k: set<char>): nat {
    if t == "" then 0 else (if t[0] in k && t[0] in SPECIAL then 1 else 0) + Replaceable(t[1..], k)
  }

  lemma {:induction false} ReplaceablePlain(w: string, rest: string, k: set<char>)
    requires forall i :: 0 <= i < |w| ==> w[i] !in k || w[i] !in SPECIAL
    ensures Replaceable(w + rest, k) == Replaceable(rest, k)
  {
    if w == "" {
      assert w + rest == rest;
    } else {
      ReplaceablePlain(w[1..], rest, k);
      assert (w + rest)[1..] == w[1..] + rest;
    }
  }

  lemma {:induction false} ReplaceableDrop(t: string, k: set<char>, n: nat)
    requires n <= |t|
    ensures Replaceable(t[n..], k) <= Replaceable(t, k)
  {
    if n > 0 {
      ReplaceableDrop(t[1..], k, n - 1);
      assert t[1..][n - 1..] == t[n..];
    }
  }

  lemma EntityTail(c: char, k: set<char>)
    ensures forall i :: 0 <= i < |Entity(c)| - 1 ==> Entity(c)[1..][i] !in k || Entity(c)[1..][i] !in SPECIAL
  {
    if c in SPECIAL {
      EntityShape(c);
    }
  }

  lemma Shift(pre: string, e: string, rest: string)
    requires e != ""
    ensures pre + (e + rest) == (pre + [e[0]]) + (e[1..] + rest)
  {
  }

  /** One replacement: from the found character on, the text escapes to the entity and the rest. */
  lemma EscapeStep(pre: string, c: char, post: string, k: set<char>)
    requires c in k
    ensures pre + Escaped([c] + post, k) == (pre + [Entity(c)[0]]) + Escaped(Entity(c)[1..] + post, k)
  {
    EntityTail(c, k);
    EscapedStep(c, post, k);
    EscapedPlain(Entity(c)[1..], post, k);
    Shift(pre, Entity(c), Escaped(post, k));
  }

  lemma EscapeProgress(c: char, post: string, k: set<char>)
    requires c in k
    ensures c in SPECIAL ==> Replaceable(Entity(c)[1..] + post, k) < Replaceable([c] + post, k)
    ensures c !in SPECIAL ==> Entity(c)[1..] + post == post && Replaceable(post, k) <= Replaceable([c] + post, k)
  {
    EntityTail(c, k);
    ReplaceablePlain(Entity(c)[1..], post, k);
    assert ([c] + post)[1..] == post;
  }

  /** `id2xml`: replaces in place, and goes on inside what it has written. */
  method Id2Xml(input: string, notAllowed: set<char>) returns (text: string)
    ensures text == Escaped(input, notAllowed)
  {
    // The text is `done + rest`, and `i` is the length of `done`.
    var done, rest := "", input;
    while NextOf(rest, notAllowed) < |rest|
      invariant done + Escaped(rest, notAllowed) == Escaped(input, notAllowed)
      decreases Replaceable(rest, notAllowed), |rest|
    {
      var n := NextOf(rest, notAllowed);
      var pre, c, post := done + rest[..n], rest[n], rest[n + 1..];
      EscapedUpTo(rest, notAllowed);
      ReplaceableDrop(rest, notAllowed, n);
      assert rest[n..] == [c] + post;
      Assoc(done, rest[..n], Escaped([c] + post, notAllowed));
      EscapeStep(pre, c, post, notAllowed);
      EscapeProgress(c, post, notAllowed);
      done := pre + [Entity(c)[0]];
      rest := Entity(c)[1..] + post;
    }
    EscapedUpTo(rest, notAllowed);
    assert rest[..|rest|] + "" == rest;
    text := done + rest;
  }

  /** `find`: how far the next copy of `w` is, or the length of the text. */
  function NextCopy(t: string, w: string): (r: nat)
    ensures r <= |t| && (r < |t| ==> w <= t[r..])
  {
    if t == "" || w <= t then 0
    else
      assert NextCopy(t[1..], w) < |t[1..]| ==> t[1..][NextCopy(t[1..], w)..] == t[1 + NextCopy(t[1..], w)..];
      1 + NextCopy(t[1..], w)
  }

  lemma TakeMore(t: string, n: nat, rest: string)
    requires n < |t|
    ensures [t[0]] + (t[1..][..n] + rest) == t[..n + 1] + rest
  {
  }

  lemma {:induction false} PassUpTo(t: string, c: char, e: string)
    requires c in SPECIAL && e == Entity(c)
    ensures Pass(t, c) == t[..NextCopy(t, e)] + Pass(t[NextCopy(t, e)..], c)
  {
    var n := NextCopy(t, e);
    if n == 0 {
      assert t[n..] == t;
    } else {
      PassUpTo(t[1..], c, e);
      PassFirst(t, c);
      TakeMore(t, n - 1, Pass(t[n..], c));
      assert t[n..] == t[1..][n - 1..];
    }
  }

  /** One loop of `xml2id`: replaces in place and looks again at the same place. */
  method PassLoop(input: string, c: char) returns (text: string)
    requires c in SPECIAL
    ensures text == Pass(input, c)
  {
    var done, rest := "", input;
    var e := Entity(c);
    while NextCopy(rest, e) < |rest|
      invariant done + Pass(rest, c) == Pass(input, c)
      decreases |rest|
    {
      var n := NextCopy(rest, e);
      PassUpTo(rest, c, e);
      Assoc(done, rest[..n], Pass(rest[n..], c));
      EntityShape(c);
      assert rest[n..][|e|..] == rest[n + |e|..];
      done := done + rest[..n];
      rest := [c] + rest[n + |e|..];
    }
    PassUpTo(rest, c, e);
    assert rest[..|rest|] + "" == rest;
    text := done + rest;
  }

  /** `xml2id`. */
  method Xml2Id(input: string) returns (text: string)
    ensures text == Unescaped(input)
  {
    text := PassLoop(input, '>');
    text := PassLoop(text, '<');
    text := PassLoop(text, '&');
    text := PassLoop(text, '\'');
    text := PassLoop(text, '"');
  }
}
